/**
 The primitive encodings the write and read buffers share: fixed-width
 big-endian forms, the compact (varint) int and long forms in both
 optimizePositive modes, the 1-or-3-byte compact short, booleans, chars,
 and self-delimiting strings. Each encoder has a decoder that reads one
 value from the front of a byte sequence and reports how many bytes it used.
 */
module Codec {
  import opened Results
  import opened Bytes
  import opened Base128

  // ---------------------------------------------------------------------
  // Fixed-width two's-complement values
  // ---------------------------------------------------------------------

  predicate FitsFixed(v: int, n: nat) {
    n >= 1 && -(Pow256(n) / 2) <= v < Pow256(n) / 2
  }

  /** `v` as an `n`-byte big-endian two's-complement pattern. */
  function EncodeFixed(v: int, n: nat): (bs: seq<byte>)
    requires FitsFixed(v, n)
    ensures |bs| == n
  {
    Pow256Even(n);
    ToBigEndian(Unsigned(v, Pow256(n)), n)
  }

  function DecodeFixed(bs: seq<byte>, n: nat): (r: Result<(int, nat)>)
    requires n >= 1
    ensures r.Ok? ==> r.value.1 == n <= |bs| && FitsFixed(r.value.0, n)
    ensures r.Err? <==> |bs| < n
    ensures r.Err? ==> r.error == EndOfData
  {
    if |bs| < n then Err(EndOfData)
    else
      Pow256Even(n);
      Ok((Signed(FromBigEndian(bs[..n]), Pow256(n)), n))
  }

  lemma DecodeFixedOfEncodeFixed(v: int, n: nat, rest: seq<byte>)
    requires FitsFixed(v, n)
    ensures DecodeFixed(EncodeFixed(v, n) + rest, n) == Ok((v, n))
  {
    var bs := EncodeFixed(v, n) + rest;
    assert bs[..n] == EncodeFixed(v, n);
    Pow256Even(n);
    SignedOfUnsigned(v, Pow256(n));
  }

  // ---------------------------------------------------------------------
  // Compact ints and longs
  // ---------------------------------------------------------------------

  /** Java `int` (32 bits, at most 5 varint bytes) or `long` (64 bits, at most 10). */
  datatype Width = IntWidth | LongWidth {
    function Modulus(): nat {
      if IntWidth? then INT_MODULUS else LONG_MODULUS
    }
    function MaxBytes(): nat {
      if IntWidth? then 5 else 10
    }
    predicate InRange(v: int) {
      -(Modulus() / 2) <= v < Modulus() / 2
    }
  }

  /** The varint's maximum width holds every pattern, and one byte fewer does not hold a negative one. */
  lemma WidthFacts(w: Width)
    ensures Pow128(w.MaxBytes()) >= w.Modulus()
    ensures Pow128(w.MaxBytes() - 1) <= w.Modulus() / 2
  {
    assert Pow128(5) == 0x8_0000_0000;
    assert Pow128(4) == 0x1000_0000;
    assert Pow128(10) == 0x40_0000_0000_0000_0000;
    assert Pow128(9) == 0x8000_0000_0000_0000;
  }

  /**
   The unsigned code the 7-bit groups are taken from: the raw bit pattern
   when optimizePositive is set, the ZigZag code otherwise.
   */
  function CompactCode(v: int, w: Width, optimizePositive: bool): (u: nat)
    requires w.InRange(v)
    ensures u < w.Modulus()
  {
    ZigZagBound(v, w.Modulus() / 2);
    if optimizePositive then Unsigned(v, w.Modulus()) else ZigZag(v)
  }

  function EncodeCompact(v: int, w: Width, optimizePositive: bool): (bs: seq<byte>)
    requires w.InRange(v)
    ensures 1 <= |bs| <= w.MaxBytes()
  {
    var u := CompactCode(v, w, optimizePositive);
    WidthFacts(w);
    VarintLength(u, w.MaxBytes());
    Varint(u)
  }

  /**
   Reads one compact value of width `w`. Bits beyond the width are dropped,
   as Java's shifts into an `int` or `long` drop them.
   */
  function DecodeCompact(bs: seq<byte>, w: Width, optimizePositive: bool): (r: Result<(int, nat)>)
    ensures r.Ok? ==> 1 <= r.value.1 <= |bs| && r.value.1 <= w.MaxBytes()
    ensures r.Ok? ==> w.InRange(r.value.0)
    ensures r.Err? <==> ParseVarint(bs, w.MaxBytes()).Err?
    ensures r.Err? ==> r.error == EndOfData || r.error == MalformedVarint
    ensures r.Err? <==> NoTerminator(bs, w.MaxBytes())
    ensures r.Err? ==> (r.error == EndOfData <==> |bs| < w.MaxBytes())
  {
    var p :- ParseVarint(bs, w.MaxBytes());
    var u := p.0 % w.Modulus();
    var v := if optimizePositive then Signed(u, w.Modulus()) else UnZigZag(u);
    ZigZagBound(v, w.Modulus() / 2);
    Ok((v, p.1))
  }

  /** Compact values read back unchanged when the reader uses the writer's mode. */
  lemma DecodeCompactOfEncodeCompact(v: int, w: Width, optimizePositive: bool, rest: seq<byte>)
    requires w.InRange(v)
    ensures DecodeCompact(EncodeCompact(v, w, optimizePositive) + rest, w, optimizePositive)
         == Ok((v, |EncodeCompact(v, w, optimizePositive)|))
  {
    var u := CompactCode(v, w, optimizePositive);
    var bs := EncodeCompact(v, w, optimizePositive) + rest;
    WidthFacts(w);
    VarintLength(u, w.MaxBytes());
    ParseVarintOfVarint(u, rest, w.MaxBytes());
    assert ParseVarint(bs, w.MaxBytes()) == Ok((u, |Varint(u)|));
    SmallMod(u, w.Modulus());
    if optimizePositive {
      SignedOfUnsigned(v, w.Modulus());
    } else {
      UnZigZagOfZigZag(v);
    }
  }

  lemma SmallMod(u: nat, m: nat)
    requires u < m
    ensures u % m == u
  {
  }

  /**
   optimizePositive = true: a non-negative value takes at most `k` bytes
   exactly when it is below 128^k; every negative value takes the full width.
   */
  lemma PositiveModeLength(v: int, w: Width, k: nat)
    requires w.InRange(v) && k >= 1
    ensures v >= 0 ==> (|EncodeCompact(v, w, true)| <= k <==> v < Pow128(k))
    ensures v < 0 ==> |EncodeCompact(v, w, true)| == w.MaxBytes()
  {
    var u := CompactCode(v, w, true);
    WidthFacts(w);
    VarintLength(u, k);
    if v < 0 {
      VarintLength(u, w.MaxBytes());
      VarintLength(u, w.MaxBytes() - 1);
    }
  }

  /**
   optimizePositive = false: a value takes at most `k` bytes exactly when it
   lies in `[-64 * 128^(k-1), 64 * 128^(k-1))`, whatever its sign.
   */
  lemma SignedModeLength(v: int, w: Width, k: nat)
    requires w.InRange(v) && k >= 1
    ensures |EncodeCompact(v, w, false)| <= k
        <==> -(64 * Pow128(k - 1)) <= v < 64 * Pow128(k - 1)
  {
    VarintLength(ZigZag(v), k);
    ZigZagBound(v, 64 * Pow128(k - 1));
  }

  // ---------------------------------------------------------------------
  // Compact shorts
  // ---------------------------------------------------------------------

  /** The first byte that announces a full 2-byte short follows. */
  function ShortMarker(optimizePositive: bool): byte {
    if optimizePositive then 0xFF else 0x80
  }

  /** The shorts that fit the one-byte form: 0..254 unsigned, or -127..127 signed. */
  predicate OneByteShort(v: int, optimizePositive: bool) {
    if optimizePositive then 0 <= v <= 254 else -127 <= v <= 127
  }

  function EncodeCompactShort(v: int16, optimizePositive: bool): (bs: seq<byte>)
    ensures |bs| == 1 || |bs| == 3
    ensures |bs| == 1 <==> OneByteShort(v, optimizePositive)
    ensures bs[0] == ShortMarker(optimizePositive) <==> |bs| == 3
  {
    if OneByteShort(v, optimizePositive) then
      [if optimizePositive then v else Unsigned(v, 0x100)]
    else
      [ShortMarker(optimizePositive)] + EncodeFixed(v, 2)
  }

  /**
   Reads one compact short: the marker announces the fixed 2-byte form,
   any other byte is the value itself.
   */
  function DecodeCompactShort(bs: seq<byte>, optimizePositive: bool): (r: Result<(int16, nat)>)
    ensures r.Ok? ==> 1 <= r.value.1 <= |bs|
    ensures r.Err? <==> |bs| == 0 || (bs[0] == ShortMarker(optimizePositive) && |bs| < 3)
    ensures r.Err? ==> r.error == EndOfData
    ensures r.Ok? ==> (r.value.1 == 3 <==> bs[0] == ShortMarker(optimizePositive))
    ensures r.Ok? && r.value.1 == 1 ==> OneByteShort(r.value.0, optimizePositive)
  {
    if |bs| == 0 then Err(EndOfData)
    else if bs[0] == ShortMarker(optimizePositive) then
      var p :- DecodeFixed(bs[1..], 2);
      Ok((p.0, 3))
    else if optimizePositive then Ok((bs[0], 1))
    else Ok((Signed(bs[0], 0x100), 1))
  }

  lemma DecodeCompactShortOfEncode(v: int16, optimizePositive: bool, rest: seq<byte>)
    ensures DecodeCompactShort(EncodeCompactShort(v, optimizePositive) + rest, optimizePositive)
         == Ok((v, |EncodeCompactShort(v, optimizePositive)|))
  {
    var bs := EncodeCompactShort(v, optimizePositive) + rest;
    if OneByteShort(v, optimizePositive) {
      if !optimizePositive {
        SignedOfUnsigned(v, 0x100);
      }
    } else {
      assert bs[1..] == EncodeFixed(v, 2) + rest;
      DecodeFixedOfEncodeFixed(v, 2, rest);
    }
  }

  // ---------------------------------------------------------------------
  // Strings
  // ---------------------------------------------------------------------

  /** A Java string: its length is a non-negative `int`. */
  type JavaString = s: seq<char16> | |s| < 0x8000_0000

  /** One UTF-16 unit in one, two or three bytes, by magnitude. */
  function EncodeChar(c: char16): (bs: seq<byte>)
    ensures |bs| == (if c < 0x80 then 1 else if c < 0x800 then 2 else 3)
  {
    if c < 0x80 then [c]
    else if c < 0x800 then [0xC0 + c / 0x40, 0x80 + c % 0x40]
    else [0xE0 + c / 0x1000, 0x80 + (c / 0x40) % 0x40, 0x80 + c % 0x40]
  }

  /** The lead byte decides the unit's length; 0x80..0xBF and 0xF0..0xFF cannot lead. */
  function DecodeChar(bs: seq<byte>): (r: Result<(char16, nat)>)
    ensures r.Ok? ==> 1 <= r.value.1 <= 3 && r.value.1 <= |bs|
  {
    if |bs| == 0 then Err(EndOfData)
    else if bs[0] < 0x80 then Ok((bs[0], 1))
    else if 0xC0 <= bs[0] < 0xE0 then
      if |bs| < 2 then Err(EndOfData)
      else Ok(((bs[0] as int - 0xC0) * 0x40 + bs[1] as int % 0x40, 2))
    else if 0xE0 <= bs[0] < 0xF0 then
      if |bs| < 3 then Err(EndOfData)
      else Ok(((bs[0] as int - 0xE0) * 0x1000 + (bs[1] as int % 0x40) * 0x40 + bs[2] as int % 0x40, 3))
    else Err(MalformedChar)
  }

  lemma DecodeCharOfEncodeChar(c: char16, rest: seq<byte>)
    ensures DecodeChar(EncodeChar(c) + rest) == Ok((c, |EncodeChar(c)|))
  {
    var bs := EncodeChar(c) + rest;
    if c < 0x80 {
      assert bs[0] == c;
    } else if c < 0x800 {
      var hi, lo := c / 0x40, c % 0x40;
      assert bs[0] == 0xC0 + hi && bs[1] == 0x80 + lo;
      assert (bs[0] as int - 0xC0) * 0x40 + bs[1] as int % 0x40 == c by {
        LowBits(lo);
      }
    } else {
      var hi, mid, lo := c / 0x1000, (c / 0x40) % 0x40, c % 0x40;
      assert bs[0] == 0xE0 + hi && bs[1] == 0x80 + mid && bs[2] == 0x80 + lo;
      assert (bs[0] as int - 0xE0) * 0x1000 + (bs[1] as int % 0x40) * 0x40 + bs[2] as int % 0x40 == c by {
        LowBits(mid);
        LowBits(lo);
        assert c / 0x40 == hi * 0x40 + mid;
      }
    }
  }

  /** A continuation byte carries its six payload bits below the 0x80 tag. */
  lemma LowBits(x: int)
    requires 0 <= x < 0x40
    ensures (0x80 + x) % 0x40 == x
  {
  }

  function EncodeChars(s: seq<char16>): seq<byte> {
    if |s| == 0 then [] else EncodeChar(s[0]) + EncodeChars(s[1..])
  }

  /** Decodes exactly `count` units. */
  function DecodeChars(bs: seq<byte>, count: nat): (r: Result<(seq<char16>, nat)>)
    ensures r.Ok? ==> |r.value.0| == count && r.value.1 <= |bs|
    decreases count
  {
    if count == 0 then Ok(([], 0))
    else
      var head :- DecodeChar(bs);
      var tail :- DecodeChars(bs[head.1..], count - 1);
      Ok(([head.0] + tail.0, head.1 + tail.1))
  }

  lemma {:induction false} DecodeCharsOfEncodeChars(s: seq<char16>, rest: seq<byte>)
    ensures DecodeChars(EncodeChars(s) + rest, |s|) == Ok((s, |EncodeChars(s)|))
    decreases |s|
  {
    if |s| > 0 {
      var bs := EncodeChars(s) + rest;
      var head := EncodeChar(s[0]);
      var tail := EncodeChars(s[1..]);
      assert bs == head + (tail + rest) by {
        AppendAssociative(head, tail, rest);
      }
      assert DecodeChar(bs) == Ok((s[0], |head|)) by {
        DecodeCharOfEncodeChar(s[0], tail + rest);
      }
      assert DecodeChars(bs[|head|..], |s| - 1) == Ok((s[1..], |tail|)) by {
        assert bs[|head|..] == tail + rest;
        DecodeCharsOfEncodeChars(s[1..], rest);
      }
      assert [s[0]] + s[1..] == s;
    }
  }

  /** Each unit takes one to three bytes. */
  lemma {:induction false} EncodeCharsLength(s: seq<char16>)
    ensures |s| <= |EncodeChars(s)| <= 3 * |s|
    decreases |s|
  {
    if |s| > 0 {
      EncodeCharsLength(s[1..]);
    }
  }

  /** The character count as a positive-optimised compact int, then the units: no terminator needed. */
  function EncodeString(s: JavaString): seq<byte> {
    EncodeCompact(|s|, IntWidth, true) + EncodeChars(s)
  }

  function DecodeString(bs: seq<byte>): (r: Result<(JavaString, nat)>)
    ensures r.Ok? ==> r.value.1 <= |bs|
    ensures DecodeCompact(bs, IntWidth, true).Err? ==> r == Err(DecodeCompact(bs, IntWidth, true).error)
    ensures DecodeCompact(bs, IntWidth, true).Ok? && DecodeCompact(bs, IntWidth, true).value.0 < 0
            ==> r == Err(MalformedString)
    ensures r.Ok? ==> var (count, n) := DecodeCompact(bs, IntWidth, true).value;
                      |r.value.0| == count && n <= r.value.1
  {
    var n :- DecodeCompact(bs, IntWidth, true);
    if n.0 < 0 then Err(MalformedString)
    else
      var cs :- DecodeChars(bs[n.1..], n.0);
      Ok((cs.0, n.1 + cs.1))
  }

  lemma DecodeStringOfEncodeString(s: JavaString, rest: seq<byte>)
    ensures DecodeString(EncodeString(s) + rest) == Ok((s, |EncodeString(s)|))
  {
    var prefix := EncodeCompact(|s|, IntWidth, true);
    var body := EncodeChars(s);
    var bs := EncodeString(s) + rest;
    assert bs == prefix + (body + rest) by {
      AppendAssociative(prefix, body, rest);
    }
    assert DecodeCompact(bs, IntWidth, true) == Ok((|s|, |prefix|)) by {
      DecodeCompactOfEncodeCompact(|s|, IntWidth, true, body + rest);
    }
    assert DecodeChars(bs[|prefix|..], |s|) == Ok((s, |body|)) by {
      assert bs[|prefix|..] == body + rest;
      DecodeCharsOfEncodeChars(s, rest);
    }
  }

  // ---------------------------------------------------------------------
  // Values and the kinds a reader asks for
  // ---------------------------------------------------------------------

  /** Fixed width, or compact with the given optimizePositive flag. */
  datatype Mode = Fixed | Compact(optimizePositive: bool)

  /** What the reader asks for; the mode is never stored in the data. */
  datatype Kind =
    | ByteKind
    | BooleanKind
    | CharKind
    | ShortKind(mode: Mode)
    | IntKind(mode: Mode)
    | LongKind(mode: Mode)
    | StringKind

  datatype Value =
    | ByteValue(b: byte)
    | BooleanValue(flag: bool)
    | CharValue(c: char16)
    | ShortValue(s: int16, mode: Mode)
    | IntValue(i: int32, mode: Mode)
    | LongValue(l: int64, mode: Mode)
    | StringValue(str: JavaString)

  function KindOf(v: Value): Kind {
    match v
    case ByteValue(_) => ByteKind
    case BooleanValue(_) => BooleanKind
    case CharValue(_) => CharKind
    case ShortValue(_, m) => ShortKind(m)
    case IntValue(_, m) => IntKind(m)
    case LongValue(_, m) => LongKind(m)
    case StringValue(_) => StringKind
  }

  /** The bytes one write call emits. Fixed forms take 1, 1, 2, 2, 4 and 8 bytes. */
  function Encode(v: Value): (bs: seq<byte>)
    ensures v.ByteValue? || v.BooleanValue? ==> |bs| == 1
    ensures v.CharValue? || (v.ShortValue? && v.mode.Fixed?) ==> |bs| == 2
    ensures v.IntValue? && v.mode.Fixed? ==> |bs| == 4
    ensures v.LongValue? && v.mode.Fixed? ==> |bs| == 8
    ensures v.IntValue? && v.mode.Compact? ==> 1 <= |bs| <= 5
    ensures v.LongValue? && v.mode.Compact? ==> 1 <= |bs| <= 10
  {
    match v
    case ByteValue(b) => [b]
    case BooleanValue(f) => [if f then 1 else 0]
    case CharValue(c) => ToBigEndian(c, 2)
    case ShortValue(s, Fixed) => EncodeFixed(s, 2)
    case ShortValue(s, Compact(p)) => EncodeCompactShort(s, p)
    case IntValue(i, Fixed) => EncodeFixed(i, 4)
    case IntValue(i, Compact(p)) => EncodeCompact(i, IntWidth, p)
    case LongValue(l, Fixed) => EncodeFixed(l, 8)
    case LongValue(l, Compact(p)) => EncodeCompact(l, LongWidth, p)
    case StringValue(s) => EncodeString(s)
  }

  /** Reads one value of kind `k` from the front of `bs`. */
  function Decode(k: Kind, bs: seq<byte>): (r: Result<(Value, nat)>)
    ensures r.Ok? ==> KindOf(r.value.0) == k && 1 <= r.value.1 <= |bs|
  {
    match k
    case ByteKind =>
      if |bs| < 1 then Err(EndOfData) else Ok((ByteValue(bs[0]), 1))
    case BooleanKind =>
      if |bs| < 1 then Err(EndOfData) else Ok((BooleanValue(bs[0] == 1), 1))
    case CharKind =>
      if |bs| < 2 then Err(EndOfData) else Ok((CharValue(FromBigEndian(bs[..2])), 2))
    case ShortKind(Fixed) =>
      var p :- DecodeFixed(bs, 2);
      Ok((ShortValue(p.0, Fixed), p.1))
    case ShortKind(Compact(o)) =>
      var p :- DecodeCompactShort(bs, o);
      Ok((ShortValue(p.0, Compact(o)), p.1))
    case IntKind(Fixed) =>
      var p :- DecodeFixed(bs, 4);
      Ok((IntValue(p.0, Fixed), p.1))
    case IntKind(Compact(o)) =>
      var p :- DecodeCompact(bs, IntWidth, o);
      Ok((IntValue(p.0, Compact(o)), p.1))
    case LongKind(Fixed) =>
      var p :- DecodeFixed(bs, 8);
      Ok((LongValue(p.0, Fixed), p.1))
    case LongKind(Compact(o)) =>
      var p :- DecodeCompact(bs, LongWidth, o);
      Ok((LongValue(p.0, Compact(o)), p.1))
    case StringKind =>
      var p :- DecodeString(bs);
      if p.1 == 0 then Err(EndOfData) else Ok((StringValue(p.0), p.1))
  }

  /**
   When a typed read fails: a fixed-width read exactly when fewer bytes
   remain than its width, a compact or string read exactly when its own
   code fails.
   */
  lemma DecodeFailures(k: Kind, bs: seq<byte>)
    ensures k.ByteKind? || k.BooleanKind? ==> (Decode(k, bs).Err? <==> |bs| < 1)
    ensures k.CharKind? || k == ShortKind(Fixed) ==> (Decode(k, bs).Err? <==> |bs| < 2)
    ensures k == IntKind(Fixed) ==> (Decode(k, bs).Err? <==> |bs| < 4)
    ensures k == LongKind(Fixed) ==> (Decode(k, bs).Err? <==> |bs| < 8)
    ensures k.ShortKind? && k.mode.Compact? ==>
              (Decode(k, bs).Err? <==> DecodeCompactShort(bs, k.mode.optimizePositive).Err?)
    ensures k.IntKind? && k.mode.Compact? ==>
              (Decode(k, bs).Err? <==> DecodeCompact(bs, IntWidth, k.mode.optimizePositive).Err?)
    ensures k.LongKind? && k.mode.Compact? ==>
              (Decode(k, bs).Err? <==> DecodeCompact(bs, LongWidth, k.mode.optimizePositive).Err?)
    ensures k.StringKind? ==> (Decode(k, bs).Err? <==> DecodeString(bs).Err?)
  {
  }

  /** Every value reads back as itself, consuming exactly its own bytes, whatever follows it. */
  lemma DecodeOfEncode(v: Value, rest: seq<byte>)
    ensures Decode(KindOf(v), Encode(v) + rest) == Ok((v, |Encode(v)|))
  {
    if v.ShortValue? {
      DecodeOfEncodeShort(v, rest);
    } else if v.IntValue? {
      DecodeOfEncodeInt(v, rest);
    } else if v.LongValue? {
      DecodeOfEncodeLong(v, rest);
    } else {
      DecodeOfEncodeOther(v, rest);
    }
  }

  lemma DecodeOfEncodeShort(v: Value, rest: seq<byte>)
    requires v.ShortValue?
    ensures Decode(KindOf(v), Encode(v) + rest) == Ok((v, |Encode(v)|))
  {
    match v.mode
    case Fixed => DecodeFixedOfEncodeFixed(v.s, 2, rest);
    case Compact(p) => DecodeCompactShortOfEncode(v.s, p, rest);
  }

  lemma DecodeOfEncodeInt(v: Value, rest: seq<byte>)
    requires v.IntValue?
    ensures Decode(KindOf(v), Encode(v) + rest) == Ok((v, |Encode(v)|))
  {
    match v.mode
    case Fixed => DecodeFixedOfEncodeFixed(v.i, 4, rest);
    case Compact(p) => DecodeCompactOfEncodeCompact(v.i, IntWidth, p, rest);
  }

  lemma DecodeOfEncodeLong(v: Value, rest: seq<byte>)
    requires v.LongValue?
    ensures Decode(KindOf(v), Encode(v) + rest) == Ok((v, |Encode(v)|))
  {
    match v.mode
    case Fixed => DecodeFixedOfEncodeFixed(v.l, 8, rest);
    case Compact(p) => DecodeCompactOfEncodeCompact(v.l, LongWidth, p, rest);
  }

  lemma DecodeOfEncodeOther(v: Value, rest: seq<byte>)
    requires v.ByteValue? || v.BooleanValue? || v.CharValue? || v.StringValue?
    ensures Decode(KindOf(v), Encode(v) + rest) == Ok((v, |Encode(v)|))
  {
    var bs := Encode(v) + rest;
    match v
    case ByteValue(_) =>
    case BooleanValue(_) =>
    case CharValue(c) =>
      assert bs[..2] == Encode(v);
    case StringValue(s) =>
      DecodeStringOfEncodeString(s, rest);
  }

  /** The kinds a reader must ask for, in order, to read `vs` back. */
  function KindsOf(vs: seq<Value>): (ks: seq<Kind>)
    ensures |ks| == |vs|
    ensures forall i :: 0 <= i < |vs| ==> ks[i] == KindOf(vs[i])
  {
    if |vs| == 0 then [] else [KindOf(vs[0])] + KindsOf(vs[1..])
  }

  /** The bytes of a sequence of write calls: the encodings back to back, with no separators. */
  function EncodeAll(vs: seq<Value>): seq<byte> {
    if |vs| == 0 then [] else Encode(vs[0]) + EncodeAll(vs[1..])
  }

  /** Values of at most `k` bytes each take at most `k * |vs|` bytes together. */
  lemma {:induction false} EncodeAllLength(vs: seq<Value>, k: nat)
    requires forall i | 0 <= i < |vs| :: |Encode(vs[i])| <= k
    ensures |EncodeAll(vs)| <= k * |vs|
    decreases |vs|
  {
    if |vs| > 0 {
      assert forall i | 0 <= i < |vs| - 1 :: vs[1..][i] == vs[i + 1];
      EncodeAllLength(vs[1..], k);
      assert |EncodeAll(vs)| == |Encode(vs[0])| + |EncodeAll(vs[1..])|;
      assert k * |vs| == k + k * (|vs| - 1);
    }
  }
}
