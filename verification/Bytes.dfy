/** Octets, error results, growing buffers and big-endian numbers: what the BER
    codec and the AES key wrap are both built on. */
module Bytes {

  type byte = b: int | 0 <= b < 256

  datatype Result<+T> = Ok(value: T) | Err

  datatype Option<+T> = None | Some(value: T)
  {
    predicate IsFailure() {
      None?
    }

    function PropagateFailure<U>(): Option<U>
      requires None?
    {
      None
    }

    function Extract(): T
      requires Some?
    {
      value
    }
  }

  /** The part of Go's bytes.Buffer that the encoder uses. */
  class Buffer {
    var data: seq<byte>

    constructor ()
      ensures data == []
    {
      data := [];
    }

    method WriteByte(b: byte)
      modifies this
      ensures data == old(data) + [b]
    {
      data := data + [b];
    }

    method Write(bs: seq<byte>)
      modifies this
      ensures data == old(data) + bs
    {
      data := data + bs;
    }
  }

  // ---------- prefixes and parts ----------

  /** `s` starts with the octets `p`. */
  predicate Starts(s: seq<byte>, p: seq<byte>) {
    |p| <= |s| && s[..|p|] == p
  }

  lemma StartsBoth(s: seq<byte>, a: seq<byte>, b: seq<byte>)
    ensures Starts(s, a + b) <==> Starts(s, a) && Starts(s[|a|..], b)
  {
    if |a + b| <= |s| {
      assert s[..|a + b|] == s[..|a|] + s[|a|..][..|b|];
    }
  }

  // ---------- big-endian numbers ----------

  function Pow256(n: nat): (p: nat)
    ensures p >= 1
  {
    if n == 0 then 1 else 256 * Pow256(n - 1)
  }

  /** The number that octets denote, most significant first. */
  function BigEndian(bs: seq<byte>): nat {
    if bs == [] then 0 else BigEndian(bs[..|bs| - 1]) * 256 + bs[|bs| - 1]
  }

  /** The n least significant octets of i, most significant first. */
  function Octets(i: nat, n: nat): (bs: seq<byte>)
    ensures |bs| == n
  {
    if n == 0 then [] else Octets(i / 256, n - 1) + [i % 256]
  }

  /** i >> 8k */
  function ShiftRight(i: nat, k: nat): nat {
    if k == 0 then i else ShiftRight(i / 256, k - 1)
  }

  lemma {:induction false} ShiftRightLast(i: nat, k: nat)
    ensures ShiftRight(i, k + 1) == ShiftRight(i, k) / 256
  {
    if k == 0 {
    } else {
      ShiftRightLast(i / 256, k - 1);
    }
  }

  lemma {:induction false} BigEndianOfOctets(i: nat, n: nat)
    requires i < Pow256(n)
    ensures BigEndian(Octets(i, n)) == i
  {
    if n == 0 {
    } else {
      BigEndianOfOctets(i / 256, n - 1);
      assert Octets(i, n)[..n - 1] == Octets(i / 256, n - 1);
    }
  }

  lemma {:induction false} OctetsOfBigEndian(bs: seq<byte>)
    ensures BigEndian(bs) < Pow256(|bs|)
    ensures Octets(BigEndian(bs), |bs|) == bs
  {
    if bs == [] {
    } else {
      OctetsOfBigEndian(bs[..|bs| - 1]);
    }
  }

  // ---------- exclusive or ----------

  /** Bitwise exclusive or of two numbers. */
  function Xor(a: nat, b: nat): nat
    decreases a + b
  {
    if a == 0 && b == 0 then 0 else 2 * Xor(a / 2, b / 2) + (a + b) % 2
  }

  lemma XorBits(a: nat, b: nat)
    ensures Xor(a, b) / 2 == Xor(a / 2, b / 2)
    ensures Xor(a, b) % 2 == (a + b) % 2
  {
    if a == 0 && b == 0 {
      assert Xor(0, 0) == 0;
    } else {
      assert Xor(a, b) == 2 * Xor(a / 2, b / 2) + (a + b) % 2;
    }
  }

  lemma {:induction false} XorTwice(a: nat, b: nat)
    ensures Xor(Xor(a, b), b) == a
    decreases a + b
  {
    if a == 0 && b == 0 {
    } else {
      var x := Xor(a, b);
      XorBits(a, b);
      XorTwice(a / 2, b / 2);
      XorBits(x, b);
      ParityTwice(a, b, x);
      assert Xor(x, b) / 2 == a / 2 && Xor(x, b) % 2 == a % 2;
    }
  }

  lemma ParityTwice(a: nat, b: nat, x: nat)
    requires x % 2 == (a + b) % 2
    ensures (x + b) % 2 == a % 2
  {
  }

  function Pow2(n: nat): (p: nat)
    ensures p >= 1
  {
    if n == 0 then 1 else 2 * Pow2(n - 1)
  }

  lemma {:induction false} Pow2Of8(n: nat)
    ensures Pow2(8 * n) == Pow256(n)
  {
    if n == 0 {
    } else {
      Pow2Of8(n - 1);
      var k := 8 * n - 8;
      assert Pow2(k + 2) == 4 * Pow2(k);
      assert Pow2(k + 4) == 16 * Pow2(k);
      assert Pow2(k + 6) == 64 * Pow2(k);
    }
  }

  /** Exclusive or stays inside the machine word. */
  lemma {:induction false} XorWidth(a: nat, b: nat, n: nat)
    requires a < Pow2(n) && b < Pow2(n)
    ensures Xor(a, b) < Pow2(n)
    decreases n
  {
    if n == 0 {
    } else {
      XorWidth(a / 2, b / 2, n - 1);
    }
  }
}
