/** The length octets of ber.go: what the encoder writes and what the parser accepts
    (sections 8.1.3 and 10.1 of ITU-T X.690). */
module Lengths {
  import opened Bytes

  // ---------- what is written ----------

  /** The shortest big-endian form of i, one octet at least. */
  function LengthOctets(i: nat): (bs: seq<byte>)
    ensures |bs| >= 1
  {
    if i < 256 then [i] else LengthOctets(i / 256) + [i % 256]
  }

  /** 0x80 | byte(n) */
  function HighBit(n: nat): byte {
    128 + n % 128
  }

  function EncodedLength(length: nat): (bs: seq<byte>)
    ensures |bs| >= 1
  {
    if length >= 128 then [HighBit(|LengthOctets(length)|)] + LengthOctets(length) else [length]
  }

  lemma {:induction false} LengthOctetsAre(i: nat, n: nat)
    requires n == |LengthOctets(i)|
    ensures LengthOctets(i) == Octets(i, n)
    ensures i < Pow256(n) && (n == 1 || Pow256(n - 1) <= i)
  {
    if i < 256 {
      assert Octets(i, 1) == Octets(i / 256, 0) + [i % 256];
    } else {
      LengthOctetsAre(i / 256, n - 1);
    }
  }

  lemma {:induction false} Pow256Monotone(m: nat, n: nat)
    requires m <= n
    ensures Pow256(m) <= Pow256(n)
  {
    if m == n {
    } else {
      Pow256Monotone(m, n - 1);
    }
  }

  /** Only one count of octets fits a number exactly. */
  lemma OctetCountUnique(i: nat, m: nat, n: nat)
    requires m >= 1 && n >= 1
    requires i < Pow256(m) && (m == 1 || Pow256(m - 1) <= i)
    requires i < Pow256(n) && (n == 1 || Pow256(n - 1) <= i)
    ensures m == n
  {
    if m < n {
      Pow256Monotone(m, n - 1);
    } else if n < m {
      Pow256Monotone(n, m - 1);
    }
  }

  /** Counts octets by shifting the number down; the count is the unique n that fits. */
  method LengthLength(i: nat) returns (numBytes: nat)
    ensures numBytes >= 1
    ensures i < Pow256(numBytes) && (numBytes == 1 || Pow256(numBytes - 1) <= i)
    ensures numBytes == |LengthOctets(i)|
  {
    numBytes := 1;
    var rest := i;
    while rest > 255
      invariant numBytes >= 1
      invariant |LengthOctets(i)| == numBytes - 1 + |LengthOctets(rest)|
    {
      numBytes := numBytes + 1;
      rest := rest / 256;
    }
    LengthOctetsAre(i, numBytes);
  }

  method MarshalLongLength(out: Buffer, i: nat)
    modifies out
    ensures out.data == old(out.data) + LengthOctets(i)
  {
    var n := LengthLength(i);
    ghost var total := n;
    ShiftsToZero(i, n);
    while n > 0
      invariant 0 <= n <= total
      invariant out.data == old(out.data) + Octets(ShiftRight(i, n), total - n)
    {
      ShiftRightLast(i, n - 1);
      out.WriteByte(ShiftRight(i, n - 1) % 256);
      n := n - 1;
    }
    LengthOctetsAre(i, total);
  }

  lemma {:induction false} ShiftsToZero(i: nat, n: nat)
    requires i < Pow256(n)
    ensures ShiftRight(i, n) == 0
  {
    if n == 0 {
    } else {
      ShiftsToZero(i / 256, n - 1);
    }
  }

  method EncodeLength(out: Buffer, length: nat)
    modifies out
    ensures out.data == old(out.data) + EncodedLength(length)
  {
    if length >= 128 {
      ghost var was := out.data;
      var l := LengthLength(length);
      out.WriteByte(HighBit(l));
      MarshalLongLength(out, length);
      assert out.data == was + ([HighBit(l)] + LengthOctets(length));
    } else {
      out.WriteByte(length);
    }
  }

  // ---------- what is accepted ----------

  /** Whether `octets` are definite length octets that the parser takes for `length`:
      the short form, or the long form with at most four octets, a value below 2^31
      and no leading zero, except a zero octet in front of an octet with its top bit set. */
  predicate DefiniteLength(octets: seq<byte>, length: nat) {
    || (|octets| == 1 && octets[0] < 128 && length == octets[0])
    || (&& 2 <= |octets| <= 5
        && octets[0] == 128 + |octets| - 1
        && length == BigEndian(octets[1..])
        && !(octets[1] == 0 && (|octets| == 2 || octets[2] < 128))
        && !(|octets| == 5 && octets[1] >= 128))
  }

  /** The accepted length octets one by one. A length can be written in one octet more than it needs only where
      its shortest form would start with the top bit set, and 81 01 to 81 7F are accepted, too. */
  lemma AcceptedFields(field: seq<byte>, n: nat)
    ensures DefiniteLength(field, n) <==>
            || (n < 128 && field == [n])
            || (1 <= n < 256 && field == [0x81, n])
            || (128 <= n < 0x1_0000 && field == [0x82, n / 256, n % 256])
            || (0x8000 <= n < 0x100_0000 && field == [0x83, n / 0x1_0000, n / 256 % 256, n % 256])
            || (0x80_0000 <= n < 0x8000_0000 && field == [0x84, n / 0x100_0000, n / 0x1_0000 % 256, n / 256 % 256, n % 256])
  {
    if 2 <= |field| <= 5 {
      var digits := field[1..];
      assert field == [field[0]] + digits;
      Horner(digits);
      if |field| == 3 {
        TwoDigits(digits[0], digits[1], n);
      } else if |field| == 4 {
        ThreeDigits(digits[0], digits[1], digits[2], n);
      } else if |field| == 5 {
        FourDigits(digits[0], digits[1], digits[2], digits[3], n);
      }
    }
  }

  lemma Horner(bs: seq<byte>)
    requires 1 <= |bs| <= 4
    ensures BigEndian(bs)
         == if |bs| == 1 then bs[0] as int
            else if |bs| == 2 then 256 * (bs[0] as int) + bs[1]
            else if |bs| == 3 then 0x1_0000 * (bs[0] as int) + 256 * (bs[1] as int) + bs[2]
            else 0x100_0000 * (bs[0] as int) + 0x1_0000 * (bs[1] as int) + 256 * (bs[2] as int) + bs[3]
  {
    if |bs| > 1 {
      Horner(bs[..|bs| - 1]);
    }
  }

  lemma TwoDigits(a: byte, b: byte, n: nat)
    ensures n == 256 * a + b <==> n < 0x1_0000 && a == n / 256 && b == n % 256
  {
  }

  lemma ThreeDigits(a: byte, b: byte, c: byte, n: nat)
    ensures n == 0x1_0000 * a + 256 * b + c
            <==> n < 0x100_0000 && a == n / 0x1_0000 && b == n / 256 % 256 && c == n % 256
  {
    TwoDigits(a, b, n / 256);
  }

  lemma FourDigits(a: byte, b: byte, c: byte, d: byte, n: nat)
    ensures n == 0x100_0000 * a + 0x1_0000 * b + 256 * c + d
            <==> n < 0x1_0000_0000 && a == n / 0x100_0000 && b == n / 0x1_0000 % 256 && c == n / 256 % 256 && d == n % 256
  {
    ThreeDigits(a, b, c, n / 256);
  }

  /** The length octets that are written, up to the last length that can be read. */
  lemma WrittenFields(n: nat)
    requires n < 0x8000_0000
    ensures EncodedLength(n)
         == if n < 128 then [n]
            else if n < 256 then [0x81, n]
            else if n < 0x1_0000 then [0x82, n / 256, n % 256]
            else if n < 0x100_0000 then [0x83, n / 0x1_0000, n / 256 % 256, n % 256]
            else [0x84, n / 0x100_0000, n / 0x1_0000 % 256, n / 256 % 256, n % 256]
  {
    if n < 256 {
    } else if n < 0x1_0000 {
      assert LengthOctets(n) == [n / 256, n % 256];
    } else if n < 0x100_0000 {
      assert LengthOctets(n / 256) == [n / 256 / 256, n / 256 % 256];
      assert LengthOctets(n) == [n / 0x1_0000, n / 256 % 256, n % 256];
    } else {
      var m := n / 256;
      assert LengthOctets(m / 256) == [m / 256 / 256, m / 256 % 256];
      assert LengthOctets(m) == [m / 0x1_0000, m / 256 % 256, m % 256];
      assert LengthOctets(n) == LengthOctets(m) + [n % 256];
    }
  }

  /** Length octets tell where they end. */
  lemma DefiniteLengthUnique(s: seq<byte>, h1: seq<byte>, l1: nat, h2: seq<byte>, l2: nat)
    requires DefiniteLength(h1, l1) && DefiniteLength(h2, l2)
    requires Starts(s, h1) && Starts(s, h2)
    ensures h1 == h2 && l1 == l2
  {
    assert h1[0] == s[0] == h2[0];
    assert h1 == s[..|h1|] && h2 == s[..|h2|];
  }

  /** Lengths that a 64-bit int holds need at most eight octets. */
  lemma AtMostEight(n: nat)
    requires n < 0x8000_0000_0000_0000
    ensures |LengthOctets(n)| <= 8
  {
    var k := |LengthOctets(n)|;
    LengthOctetsAre(n, k);
    assert Pow256(8) == 0x1_0000_0000_0000_0000;
    if k > 8 {
      Pow256Monotone(8, k - 1);
    }
  }

  /** The octets written for a length are accepted for that length exactly when it is below 2^31. */
  lemma EncodedLengthAccepted(length: nat)
    requires length < 0x8000_0000_0000_0000
    ensures DefiniteLength(EncodedLength(length), length) <==> length < 0x8000_0000
    ensures (exists l :: DefiniteLength(EncodedLength(length), l)) <==> length < 0x8000_0000
  {
    if length >= 128 {
      var digits := LengthOctets(length);
      AtMostEight(length);
      HighBitIs(|digits|);
      Digits(length);
      LeadingOctet(length);
      LongForm(HighBit(|digits|), digits);
    } else {
      assert DefiniteLength(EncodedLength(length), length);
    }
  }

  /** What the tests on long-form length octets come to. */
  lemma LongForm(first: byte, digits: seq<byte>)
    requires 1 <= |digits| <= 8 && first == 128 + |digits| && digits[0] != 0
    ensures forall l :: DefiniteLength([first] + digits, l) <==>
              |digits| <= 4 && l == BigEndian(digits) && !(|digits| == 4 && digits[0] >= 128)
  {
    assert ([first] + digits)[1..] == digits;
  }

  lemma Digits(n: nat)
    ensures BigEndian(LengthOctets(n)) == n
  {
    LengthOctetsAre(n, |LengthOctets(n)|);
    BigEndianOfOctets(n, |LengthOctets(n)|);
  }

  lemma HighBitIs(n: nat)
    requires n <= 8
    ensures HighBit(n) == 128 + n
  {
  }

  /** The first of the long-form octets is not zero, and tells whether four octets hold 2^31. */
  lemma LeadingOctet(i: nat)
    ensures var bs := LengthOctets(i);
            && (i >= 1 ==> bs[0] != 0)
            && (|bs| == 4 ==> (bs[0] < 128 <==> i < 0x8000_0000))
            && (|bs| < 4 ==> i < 0x8000_0000)
            && (|bs| > 4 ==> i >= 0x8000_0000)
  {
    if i < 256 {
    } else {
      LeadingOctet(i / 256);
      LengthOctetsAre(i, |LengthOctets(i)|);
      var n := |LengthOctets(i)|;
      if n == 2 { assert Pow256(2) == 65536; }
      if n == 3 { assert Pow256(3) == 0x100_0000; }
      if n == 4 {
        var a, b, c := i / 256, i / 256 / 256, i / 256 / 256 / 256;
        assert Pow256(4) == 0x1_0000_0000;
        assert LengthOctets(i) == LengthOctets(a) + [i % 256];
        assert LengthOctets(a) == LengthOctets(b) + [a % 256];
        assert LengthOctets(b) == LengthOctets(c) + [b % 256];
      }
      if n > 4 {
        Pow256Monotone(4, n - 1);
        assert Pow256(4) == 0x1_0000_0000;
      }
    }
  }

  /** A longer number never takes fewer length octets, and twice the number at most one more. */
  lemma EncodedLengthGrowth(m: nat, n: nat)
    requires m <= n
    ensures |EncodedLength(m)| <= |EncodedLength(n)|
    ensures n <= 2 * m ==> |EncodedLength(n)| <= |EncodedLength(m)| + 1
  {
    LengthOctetsGrowth(m, n);
  }

  lemma {:induction false} LengthOctetsGrowth(m: nat, n: nat)
    requires m <= n
    ensures |LengthOctets(m)| <= |LengthOctets(n)|
    ensures n < 256 * (m + 1) ==> |LengthOctets(n)| <= |LengthOctets(m)| + 1
  {
    if n < 256 {
    } else {
      if m >= 256 {
        LengthOctetsGrowth(m / 256, n / 256);
      }
    }
  }

  /** No accepted form of a length is shorter than the form that is written. */
  lemma EncodedLengthShortest(octets: seq<byte>, length: nat)
    requires DefiniteLength(octets, length)
    ensures |EncodedLength(length)| <= |octets|
  {
    if length >= 128 {
      var digits := octets[1..];
      OctetsOfBigEndian(digits);
      var n := |LengthOctets(length)|;
      LengthOctetsAre(length, n);
      if n > |digits| {
        Pow256Monotone(|digits|, n - 1);
      }
    }
  }

  // ---------- where written length octets end ----------

  /** How many octets the length field takes that starts with this octet. */
  function FieldSize(first: byte): nat {
    if first < 128 then 1 else first - 127
  }

  function FieldValue(field: seq<byte>): nat
    requires field != []
  {
    if field[0] < 128 then field[0] else BigEndian(field[1..])
  }

  /** A written length tells its own size and value, for every length that a 64-bit int holds. */
  lemma EncodedField(n: nat)
    requires n < 0x8000_0000_0000_0000
    ensures var field := EncodedLength(n);
            FieldSize(field[0]) == |field| && FieldValue(field) == n
  {
    if n >= 128 {
      AtMostEight(n);
      Digits(n);
      HighBitIs(|LengthOctets(n)|);
      LongField(HighBit(|LengthOctets(n)|), LengthOctets(n));
    }
  }

  lemma LongField(first: byte, digits: seq<byte>)
    requires first == 128 + |digits|
    ensures var field := [first] + digits;
            FieldSize(field[0]) == |field| && FieldValue(field) == BigEndian(digits)
  {
    assert ([first] + digits)[1..] == digits;
  }

  /** Two written lengths at the front of the same octets are the same. */
  lemma EncodedLengthUnique(s: seq<byte>, m: nat, n: nat)
    requires m < 0x8000_0000_0000_0000 && n < 0x8000_0000_0000_0000
    requires Starts(s, EncodedLength(m)) && Starts(s, EncodedLength(n))
    ensures m == n
  {
    EncodedField(m);
    EncodedField(n);
    assert EncodedLength(m)[0] == s[0] == EncodedLength(n)[0];
    assert EncodedLength(m) == EncodedLength(n);
  }
}
