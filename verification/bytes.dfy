/**
 Java's fixed-width integer types as bounded mathematical integers, the
 two's-complement view between signed values and their unsigned bit
 patterns, and the big-endian fixed-width layout java.nio buffers use.
 */
module Bytes {

  type byte = b: int | 0 <= b < 0x100
  type int16 = v: int | -0x8000 <= v < 0x8000
  type int32 = v: int | -0x8000_0000 <= v < 0x8000_0000
  type int64 = v: int | -0x8000_0000_0000_0000 <= v < 0x8000_0000_0000_0000
  /** A Java `char`: one UTF-16 code unit. */
  type char16 = c: int | 0 <= c < 0x1_0000

  const SHORT_MODULUS: nat := 0x1_0000
  const INT_MODULUS: nat := 0x1_0000_0000
  const LONG_MODULUS: nat := 0x1_0000_0000_0000_0000

  function Pow256(k: nat): (r: nat)
    ensures r >= 1
  {
    if k == 0 then 1 else 0x100 * Pow256(k - 1)
  }

  lemma {:induction false} Pow256Even(k: nat)
    requires k >= 1
    ensures Pow256(k) % 2 == 0
  {
    assert Pow256(k) == 0x100 * Pow256(k - 1);
  }

  /** The two's-complement bit pattern of an in-range `v`, read as unsigned. */
  function Unsigned(v: int, modulus: nat): (u: nat)
    requires modulus > 0 && modulus % 2 == 0
    requires -(modulus / 2) <= v < modulus / 2
    ensures u < modulus
    ensures v < 0 <==> u >= modulus / 2
  {
    if v < 0 then v + modulus else v
  }

  /** The value whose two's-complement pattern, read as unsigned, is `u`. */
  function Signed(u: nat, modulus: nat): (v: int)
    requires modulus > 0 && modulus % 2 == 0 && u < modulus
    ensures -(modulus / 2) <= v < modulus / 2
    ensures Unsigned(v, modulus) == u
  {
    if u >= modulus / 2 then u - modulus else u
  }

  /** Reading back the unsigned pattern of an in-range value gives the value. */
  lemma SignedOfUnsigned(v: int, modulus: nat)
    requires modulus > 0 && modulus % 2 == 0
    requires -(modulus / 2) <= v < modulus / 2
    ensures Signed(Unsigned(v, modulus), modulus) == v
  {
  }

  /** `n` in `width` bytes, most significant first. */
  function ToBigEndian(n: nat, width: nat): (bs: seq<byte>)
    requires n < Pow256(width)
    ensures |bs| == width
    ensures FromBigEndian(bs) == n
  {
    if width == 0 then []
    else
      var high := ToBigEndian(n / 0x100, width - 1);
      assert high + [n % 0x100] == high + [n % 0x100];
      assert (high + [n % 0x100])[..width - 1] == high;
      high + [n % 0x100]
  }

  function FromBigEndian(bs: seq<byte>): (n: nat)
    ensures n < Pow256(|bs|)
  {
    if |bs| == 0 then 0 else FromBigEndian(bs[..|bs| - 1]) * 0x100 + bs[|bs| - 1]
  }

  /** Fixed-width encodings are injective on their range: the reader recovers the bytes. */
  lemma {:induction false} BigEndianOfValue(bs: seq<byte>)
    ensures ToBigEndian(FromBigEndian(bs), |bs|) == bs
  {
    if |bs| > 0 {
      var init := bs[..|bs| - 1];
      BigEndianOfValue(init);
      var n := FromBigEndian(bs);
      assert n / 0x100 == FromBigEndian(init);
      assert n % 0x100 == bs[|bs| - 1];
      assert bs == init + [bs[|bs| - 1]];
    }
  }

  /** Regrouping concatenations, stated once so proofs need not rediscover it. */
  lemma AppendAssociative(a: seq<byte>, b: seq<byte>, c: seq<byte>)
    ensures a + (b + c) == (a + b) + c
  {
  }
}
