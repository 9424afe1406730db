/**
 Base-128 variable-length integers: seven payload bits per byte, least
 significant group first, the high bit of every byte but the last set as a
 continuation flag. This is the grouping behind the compact int and long
 forms of the buffers, together with the ZigZag map that the signed mode
 (optimizePositive = false) applies first.
 */
module Base128 {
  import opened Results
  import opened Bytes

  /** The number of distinct codes that fit in `k` groups of seven bits. */
  function Pow128(k: nat): (r: nat)
    ensures r >= 1
  {
    if k == 0 then 1 else 0x80 * Pow128(k - 1)
  }

  /** The continuation-bit layout every encoding has: flag on all but the last byte. */
  predicate WellTerminated(bs: seq<byte>) {
    && |bs| >= 1
    && (forall i :: 0 <= i < |bs| - 1 ==> bs[i] >= 0x80)
    && bs[|bs| - 1] < 0x80
  }

  function Varint(n: nat): (bs: seq<byte>)
    ensures WellTerminated(bs)
  {
    if n < 0x80 then [n] else [n % 0x80 + 0x80] + Varint(n / 0x80)
  }

  /**
   None of the first `maxLen` bytes of `bs` (or of all of them, if fewer)
   ends a varint; NoTerminatorEverywhere gives the same fact index by index.
   */
  predicate NoTerminator(bs: seq<byte>, maxLen: nat)
    decreases maxLen
  {
    |bs| == 0 || maxLen == 0 || (bs[0] >= 0x80 && NoTerminator(bs[1..], maxLen - 1))
  }

  lemma {:induction false} NoTerminatorEverywhere(bs: seq<byte>, maxLen: nat)
    ensures NoTerminator(bs, maxLen) <==> forall i | 0 <= i < |bs| && i < maxLen :: bs[i] >= 0x80
    decreases maxLen
  {
    if |bs| > 0 && maxLen > 0 {
      NoTerminatorEverywhere(bs[1..], maxLen - 1);
      assert forall i | 0 < i < |bs| :: bs[1..][i - 1] == bs[i];
    }
  }

  /**
   Decodes one varint from the front of `bs`, reading at most `maxLen` bytes.
   Returns the value and the number of bytes consumed; fails with EndOfData
   when the input stops inside the value and with MalformedVarint when byte
   number `maxLen` still carries the continuation flag.
   */
  function ParseVarint(bs: seq<byte>, maxLen: nat): (r: Result<(nat, nat)>)
    ensures r.Ok? ==> 1 <= r.value.1 <= maxLen && r.value.1 <= |bs|
    ensures r.Ok? ==> WellTerminated(bs[..r.value.1])
    ensures r.Ok? ==> r.value.0 < Pow128(r.value.1)
    ensures r.Err? ==> r.error == EndOfData || r.error == MalformedVarint
    ensures r.Err? <==> NoTerminator(bs, maxLen)
    ensures r.Err? ==> (r.error == EndOfData <==> |bs| < maxLen)
    decreases maxLen
  {
    if maxLen == 0 then Err(MalformedVarint)
    else if |bs| == 0 then Err(EndOfData)
    else if bs[0] < 0x80 then
      assert bs[..1] == [bs[0]];
      Ok((bs[0], 1))
    else
      var tail :- ParseVarint(bs[1..], maxLen - 1);
      assert bs[..tail.1 + 1] == [bs[0]] + bs[1..][..tail.1];
      Ok((bs[0] - 0x80 + 0x80 * tail.0, tail.1 + 1))
  }

  /** Encoding then parsing gives back the value, whatever follows it. */
  lemma {:induction false} ParseVarintOfVarint(n: nat, rest: seq<byte>, maxLen: nat)
    requires |Varint(n)| <= maxLen
    ensures ParseVarint(Varint(n) + rest, maxLen) == Ok((n, |Varint(n)|))
    decreases n
  {
    var bs := Varint(n) + rest;
    if n >= 0x80 {
      ParseVarintOfVarint(n / 0x80, rest, maxLen - 1);
      assert bs[1..] == Varint(n / 0x80) + rest;
    }
  }

  lemma {:induction false} Pow128Monotone(i: nat, j: nat)
    requires i <= j
    ensures Pow128(i) <= Pow128(j)
    decreases j
  {
    if i < j {
      Pow128Monotone(i, j - 1);
    }
  }

  /**
   The length of an encoding is set by magnitude alone: at most `k` bytes
   exactly when the value has at most `7k` significant bits.
   */
  lemma {:induction false} VarintLength(n: nat, k: nat)
    requires k >= 1
    ensures |Varint(n)| <= k <==> n < Pow128(k)
    decreases n
  {
    Pow128Monotone(1, k);
    if n >= 0x80 && k >= 2 {
      VarintLength(n / 0x80, k - 1);
    }
  }

  /** `|Varint(n)| == k` exactly on the band `[128^(k-1), 128^k)`. */
  lemma VarintLengthIs(n: nat, k: nat)
    requires k >= 1
    requires (k == 1 || Pow128(k - 1) <= n) && n < Pow128(k)
    ensures |Varint(n)| == k
  {
    VarintLength(n, k);
    if k > 1 {
      VarintLength(n, k - 1);
    }
  }

  /** ZigZag: 0, -1, 1, -2, 2, ... map to 0, 1, 2, 3, 4, ... */
  function ZigZag(v: int): (u: nat)
    ensures u % 2 == 1 <==> v < 0
  {
    if v >= 0 then 2 * v else -2 * v - 1
  }

  /** The inverse of ZigZag. */
  function UnZigZag(u: nat): (v: int)
    ensures ZigZag(v) == u
  {
    if u % 2 == 0 then u / 2 else -(u + 1) / 2
  }

  lemma UnZigZagOfZigZag(v: int)
    ensures UnZigZag(ZigZag(v)) == v
  {
  }

  /** Small magnitudes get small codes: the code is below `2m` exactly for `-m <= v < m`. */
  lemma ZigZagBound(v: int, m: nat)
    ensures ZigZag(v) < 2 * m <==> -(m as int) <= v < m
  {
  }
}
