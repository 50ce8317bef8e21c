/** Block padding: pad of encrypt.go and the branch-free unpad of decrypt.go
    (section 6.3 of RFC 5652). */
module Padding {
  import opened Bytes

  function Repeat(b: byte, n: nat): (s: seq<byte>)
    ensures |s| == n && forall i | 0 <= i < n :: s[i] == b
  {
    seq(n, _ => b)
  }

  /** The octets that pad appends: as many as are missing to the next block, a whole block
      if none are, each holding their number as far as an octet holds it. */
  function PadLength(length: nat, blockLength: int): (p: nat)
    requires blockLength >= 1
    ensures 1 <= p <= blockLength && (length + p) % blockLength == 0
  {
    var p := blockLength - length % blockLength;
    MultipleAfter(length, blockLength);
    p
  }

  lemma MultipleAfter(n: nat, b: int)
    requires b >= 1
    ensures (n + (b - n % b)) % b == 0
  {
    assert n == n / b * b + n % b;
    assert n + (b - n % b) == (n / b + 1) * b;
    RemainderUnique(n + (b - n % b), n / b + 1, 0, b);
  }

  /** Division leaves one remainder only. */
  lemma RemainderUnique(n: int, q: int, r: int, b: int)
    requires b >= 1 && n == q * b + r && 0 <= r < b
    ensures n % b == r
  {
    OneQuotient(q, r, n / b, n % b, b);
  }

  lemma OneQuotient(q: int, r: int, q': int, r': int, b: int)
    requires b >= 1 && 0 <= r < b && 0 <= r' < b
    requires q * b + r == q' * b + r'
    ensures r == r'
  {
    if q > q' {
      Apart(q, q', b);
    } else if q < q' {
      Apart(q', q, b);
    }
  }

  lemma Apart(q: int, q': int, b: int)
    requires q > q' && b >= 1
    ensures q * b >= q' * b + b
  {
    AtLeastOne(q - q', b);
    assert (q - q') * b == q * b - q' * b;
  }

  lemma AtLeastOne(k: int, b: int)
    requires k >= 1 && b >= 1
    ensures k * b >= b
  {
  }

  function Pad(data: seq<byte>, blockLength: int): Result<seq<byte>> {
    if blockLength < 1 then Err else
      var p := PadLength(|data|, blockLength);
      Ok(data + Repeat(p % 256, p))
  }

  method PadData(data: seq<byte>, blockLength: int) returns (r: Result<seq<byte>>)
    ensures r == Pad(data, blockLength)
  {
    if blockLength < 1 {
      return Err;
    }
    var padLength := blockLength - |data| % blockLength;
    if padLength == 0 {
      padLength := blockLength;
    }
    return Ok(data + Repeat(padLength % 256, padLength));
  }

  // ---------- checking without branches ----------

  /** What crypto/subtle computes: 1 for true and 0 for false. */
  function LessOrEq(x: int, y: int): int { if x <= y then 1 else 0 }

  function ByteEq(x: byte, y: byte): int { if x == y then 1 else 0 }

  function Select(v: int, x: int, y: int): int { if v == 1 then x else y }

  /** The bitwise and of two such numbers. */
  function And(x: int, y: int): int { if x == 1 && y == 1 then 1 else 0 }

  /** Whether `data` ends in proper padding: its last octet p counts 1 to `blockLength`
      octets at the end, all equal to p. */
  predicate ProperlyPadded(data: seq<byte>, blockLength: int) {
    && blockLength >= 1 && |data| > 0 && |data| % blockLength == 0
    && var p := data[|data| - 1];
       && 1 <= p <= blockLength
       && p <= |data|
       && data[|data| - p..] == Repeat(p, p)
  }

  /** What is left when proper padding is taken off. */
  function Unpadded(data: seq<byte>, blockLength: int): Result<seq<byte>> {
    if ProperlyPadded(data, blockLength) then Ok(data[..|data| - data[|data| - 1]]) else Err
  }

  /** Scans the whole last block whatever it holds, and accepts exactly proper padding. */
  method Unpad(data: seq<byte>, blockLength: int) returns (r: Result<seq<byte>>)
    ensures r == Unpadded(data, blockLength)
  {
    if blockLength < 1 {
      return Err;
    }
    if |data| % blockLength != 0 || |data| == 0 {
      return Err;
    }
    BlockFits(|data|, blockLength);
    var n := |data|;
    var p := data[n - 1];
    var valid := And(LessOrEq(1, p), LessOrEq(p, blockLength));
    for i := 0 to blockLength
      invariant valid == 1 || valid == 0
      invariant valid == 1 <==> 1 <= p <= blockLength && forall k | n - i <= k < n && n - p <= k :: data[k] == p
    {
      var inPadding := LessOrEq(i + 1, p);
      var equal := ByteEq(data[n - 1 - i], p);
      valid := And(valid, Select(inPadding, equal, 1));
    }
    TailAllEqual(data, p);
    if valid != 1 {
      return Err;
    }
    return Ok(data[..n - p]);
  }

  lemma BlockFits(n: nat, b: int)
    requires b >= 1 && n > 0 && n % b == 0
    ensures b <= n
  {
  }

  lemma TailAllEqual(data: seq<byte>, p: byte)
    ensures p <= |data| ==>
              (data[|data| - p..] == Repeat(p, p) <==> forall k | |data| - p <= k < |data| :: data[k] == p)
  {
    if p <= |data| {
      var tail := data[|data| - p..];
      forall k | |data| - p <= k < |data|
        ensures data[k] == tail[k - (|data| - p)]
      {
      }
    }
  }

  // ---------- inverse bijections ----------

  /** Padding is taken off again exactly where its length fits an octet; that is every padding
      for block lengths up to 255. */
  lemma UnpadPad(data: seq<byte>, blockLength: int)
    requires blockLength >= 1
    ensures Unpadded(Pad(data, blockLength).value, blockLength) == Ok(data)
            <==> PadLength(|data|, blockLength) <= 255
    ensures blockLength <= 255 ==> Unpadded(Pad(data, blockLength).value, blockLength) == Ok(data)
  {
    var p := PadLength(|data|, blockLength);
    var x := data + Repeat(p % 256, p);
    assert x[|x| - 1] == p % 256;
    if p <= 255 {
      assert x[|x| - p..] == Repeat(p, p);
      assert x[..|x| - p] == data;
    } else if ProperlyPadded(x, blockLength) {
      assert |x[..|x| - p % 256]| > |data|;
    }
  }

  /** What is added: between one octet and a block of them, up to the end of a block, all equal to their number
      as far as it fits an octet; no other octets behind the data are such. */
  lemma PaddedIs(data: seq<byte>, blockLength: int, padded: seq<byte>)
    requires blockLength >= 1
    ensures Pad(data, blockLength) == Ok(padded) <==>
            && |data| < |padded| <= |data| + blockLength && |padded| % blockLength == 0
            && padded[..|data|] == data && forall i | |data| <= i < |padded| :: padded[i] == (|padded| - |data|) % 256
  {
    var p := PadLength(|data|, blockLength);
    var count := |padded| - |data|;
    if 1 <= count <= blockLength && |padded| % blockLength == 0 {
      PaddingUnique(|data|, count, blockLength);
      if padded[..|data|] == data && forall i | |data| <= i < |padded| :: padded[i] == count % 256 {
        assert padded == data + Repeat(count % 256, count);
      }
    }
  }

  /** What was accepted is what padding would have made. */
  lemma PadUnpad(x: seq<byte>, blockLength: int)
    requires Unpadded(x, blockLength).Ok?
    ensures Pad(Unpadded(x, blockLength).value, blockLength) == Ok(x)
  {
    var p := x[|x| - 1];
    var data := x[..|x| - p];
    PaddingUnique(|data|, p, blockLength);
    assert x == data + x[|x| - p..];
  }

  /** One padding length only completes a block. */
  lemma PaddingUnique(n: nat, p: nat, b: int)
    requires b >= 1 && 1 <= p <= b && (n + p) % b == 0
    ensures PadLength(n, b) == p
  {
    var q := PadLength(n, b);
    if p < q {
      CloseMultiples(n + p, n + q, b);
    } else if q < p {
      CloseMultiples(n + q, n + p, b);
    }
  }

  lemma CloseMultiples(m: nat, n: nat, b: int)
    requires b >= 1 && m < n < m + b && m % b == 0
    ensures n % b != 0
  {
    RemainderUnique(n, m / b, n - m, b);
  }
}
