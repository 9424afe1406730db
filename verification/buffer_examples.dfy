/**
 The buffer scenarios of the kryo2 buffer tests, stated as facts about the
 model: the bytes the write scenarios leave behind, the order in which the
 read scenario sees bytes under marks, the byte counts the typed writes
 report, and write-then-read round trips under the configurations of the
 buffer tests.
 */
module BufferExamples {
  import opened Results
  import opened Bytes
  import opened Base128
  import opened Codec
  import W = WriteBuffers
  import R = ReadBuffers

  // ---------------------------------------------------------------------
  // Raw bytes, marks and chunks
  // ---------------------------------------------------------------------

  const A: seq<byte> := [11, 12, 13, 14, 15, 16, 17, 18, 19, 20, 21, 22, 23, 24, 25, 26]
  const B: seq<byte> := [31, 32, 33, 34, 35, 36, 37, 38, 39, 40, 41, 42, 43, 44, 45, 46]
  const C: seq<byte> := [51, 52, 53, 54, 55, 56, 57, 58]
  const D: seq<byte> := [61, 62, 63, 64, 65]

  /** A configuration with room for `n` bytes. */
  predicate Holds(config: W.Config, n: nat) {
    W.ValidConfig(config) && W.Fits(config, n)
  }

  lemma FlattenFour(a: seq<byte>, b: seq<byte>, c: seq<byte>, d: seq<byte>)
    ensures W.Flatten([a, b, c, d]) == a + b + c + d
  {
    assert [a, b, c, d][1..] == [b, c, d];
    assert [b, c, d][1..] == [c, d];
    assert [c, d][1..] == [d];
    assert W.Flatten([d]) == d;
    assert W.Flatten([b, c, d]) == b + (c + d);
    AppendAssociative(b, c, d);
    AppendAssociative(a, b + c, d);
    AppendAssociative(a, b, c);
  }

  /**
   Four blocks written into a buffer of 4-byte chunks, at most 16 of them,
   come out of `toBytes` as one run in call order; the chunking does not
   show.
   */
  lemma GrowBuffers()
    ensures var r := W.Run(W.NewWriteBuffer(W.Config(4, Some(16))), W.Puts([A, B, C, D]));
            r.Ok? && W.ToBytes(W.Flush(r.value)) == A + B + C + D
  {
    FlattenFour(A, B, C, D);
    W.ChunkBytesIsProduct(4, 16);
    W.PutsAppend(W.NewWriteBuffer(W.Config(4, Some(16))), [A, B, C, D]);
  }

  /**
   Single-byte writes mixed with block writes, into one 512-byte chunk,
   give the same bytes as the block writes alone: a one-byte write is a
   block of one.
   */
  lemma WriteBytesAndBytes()
    ensures var blocks: seq<seq<byte>> := [A, B, [51], C[1..], [61], [62], [63], [64], [65]];
            var r := W.Run(W.NewWriteBuffer(W.Config(512, None)), W.Puts(blocks));
            r.Ok? && W.ToBytes(W.Flush(r.value)) == A + B + C + D
  {
    var blocks: seq<seq<byte>> := [A, B, [51], C[1..], [61], [62], [63], [64], [65]];
    assert W.Flatten(blocks) == A + B + C + D by {
      var front: seq<seq<byte>> := [A, B, [51], C[1..]];
      var back: seq<seq<byte>> := [[61], [62], [63], [64]];
      assert blocks == (front + back) + [[65]];
      W.FlattenAppend(front + back, [[65]]);
      W.FlattenAppend(front, back);
      FlattenFour(A, B, [51], C[1..]);
      FlattenFour([61], [62], [63], [64]);
      assert W.Flatten([[65]]) == [65];
      assert [51] + C[1..] == C;
    }
    W.PutsAppend(W.NewWriteBuffer(W.Config(512, None)), blocks);
  }

  /**
   44 bytes in 4-byte chunks pop as eleven 4-byte blocks which, in order,
   are exactly the bytes written; `toBytes` had reported all 44.
   */
  lemma PopBuffers()
    ensures var r := W.Run(W.NewWriteBuffer(W.Config(4, Some(16))), W.Puts([A, B, C, D[..4]]));
            && r.Ok?
            && |W.ToBytes(W.Flush(r.value))| == 44
            && |W.PopAll(r.value)| == 11
            && (forall i | 0 <= i < 11 :: |W.PopAll(r.value)[i]| == 4)
            && W.Flatten(W.PopAll(r.value)) == A + B + C + D[..4]
  {
    FlattenFour(A, B, C, D[..4]);
    W.ChunkBytesIsProduct(4, 16);
    var w := W.NewWriteBuffer(W.Config(4, Some(16)));
    W.PutsAppend(w, [A, B, C, D[..4]]);
    var full := W.Run(w, W.Puts([A, B, C, D[..4]])).value;
    assert full.cursor == 44;
    W.ChunkBytesIsProduct(4, 11);
    W.PopAllAligned(full, 11);
    W.PopAllCompleteness(full);
  }

  /**
   The backpatch scenario: A, then B, back to the mark before B to write C
   over its front, forward to the mark after B, then D. Holds under every
   configuration with room for the 45 bytes, in particular the three the
   buffer tests use.
   */
  lemma WriteMarks(config: W.Config)
    requires Holds(config, 45)
    ensures var ops := [W.Put(A), W.Put(B), W.Reposition(16), W.Put(C), W.Reposition(32), W.Put(D)];
            var r := W.Run(W.NewWriteBuffer(config), ops);
            && r.Ok?
            && W.ToBytes(W.Flush(r.value)) == A + C + B[8..] + D
  {
    var ops := [W.Put(A), W.Put(B), W.Reposition(16), W.Put(C), W.Reposition(32), W.Put(D)];
    var w0 := W.NewWriteBuffer(config);
    W.WriteBytesAtEnd(w0, A);
    var w1 := W.WriteBytes(w0, A).value;
    W.RunStep(w0, ops, w1);
    assert ops[1..] == [W.Put(B), W.Reposition(W.Mark(w1)), W.Put(C), W.Reposition(W.Mark(w1) + |B|), W.Put(D)];
    W.Backpatch(w1, B, C, D);
  }

  lemma WriteMarksConfigs()
    ensures Holds(W.Config(512, None), 45)
    ensures Holds(W.Config(2, Some(100)), 45)
    ensures Holds(W.Config(3, Some(100)), 45)
  {
    W.ChunkBytesIsProduct(2, 100);
    W.ChunkBytesIsProduct(3, 100);
  }

  /** `n` calls of `readByte`: the next `n` bytes, in order. */
  method ReadRun(r: R.ReadBuffer, n: nat) returns (bytes: seq<byte>, next: R.ReadBuffer)
    requires n <= |R.Remaining(r)|
    ensures bytes == R.Remaining(r)[..n] && R.Remaining(next) == R.Remaining(r)[n..]
    ensures next.source == r.source && R.Mark(next) == R.Mark(r) + n
  {
    bytes, next := [], r;
    for i := 0 to n
      invariant next.source == r.source && next.pos == r.pos + i
      invariant bytes == r.source[r.pos..r.pos + i]
    {
      var b := R.ReadByte(next).value;
      bytes, next := bytes + [b.0], b.1;
    }
  }

  /**
   Three reads, mark, three reads, mark, back to the first mark for two
   reads, forward to the second for three, over any nine bytes: the rewind
   re-reads the two bytes after the first mark and the jump resumes after
   the second.
   */
  method ReadMarks(src: seq<byte>) returns (read: seq<byte>)
    requires |src| == 9
    ensures read == src[..6] + src[3..5] + src[6..]
  {
    var r := R.NewReadBuffer(src);
    var first, second, third, fourth;
    first, r := ReadRun(r, 3);
    var start := R.Mark(r);
    second, r := ReadRun(r, 3);
    var end := R.Mark(r);
    r := R.PositionToMark(r, start).value;
    third, r := ReadRun(r, 2);
    r := R.PositionToMark(r, end).value;
    fourth, r := ReadRun(r, 3);
    read := first + second + third + fourth;
    assert first + second == src[..6];
  }

  /** The buffer tests' instance: the bytes 11, 22, ..., 99. */
  method ReadMarksBytes() returns (read: seq<byte>)
    ensures read == [11, 22, 33, 44, 55, 66, 44, 55, 77, 88, 99]
  {
    read := ReadMarks([11, 22, 33, 44, 55, 66, 77, 88, 99]);
  }

  // ---------------------------------------------------------------------
  // Byte counts of compact ints and longs
  // ---------------------------------------------------------------------

  /**
   A compact value takes exactly `n` bytes when it is inside the `n`-byte
   range of its mode and outside the `n - 1`-byte one; with
   optimizePositive, a negative value takes the full width.
   */
  lemma CompactLengthIs(v: int, w: Width, optimizePositive: bool, n: nat)
    requires w.InRange(v) && n >= 1
    requires optimizePositive && v >= 0 ==> v < Pow128(n) && (n == 1 || Pow128(n - 1) <= v)
    requires optimizePositive && v < 0 ==> n == w.MaxBytes()
    requires !optimizePositive ==> -(64 * Pow128(n - 1)) <= v < 64 * Pow128(n - 1)
    requires !optimizePositive && n > 1 ==> !(-(64 * Pow128(n - 2)) <= v < 64 * Pow128(n - 2))
    ensures |EncodeCompact(v, w, optimizePositive)| == n
  {
    if optimizePositive {
      PositiveModeLength(v, w, n);
      if v >= 0 && n > 1 {
        PositiveModeLength(v, w, n - 1);
      }
    } else {
      SignedModeLength(v, w, n);
      if n > 1 {
        SignedModeLength(v, w, n - 1);
      }
    }
  }

  // The byte counts `writeInt(value, optimizePositive)` reports in the int test.

  lemma IntLengths1()
    ensures |EncodeCompact(0, IntWidth, true)| == 1
    ensures |EncodeCompact(0, IntWidth, false)| == 1
    ensures |EncodeCompact(63, IntWidth, true)| == 1
    ensures |EncodeCompact(63, IntWidth, false)| == 1
    ensures |EncodeCompact(64, IntWidth, true)| == 1
    ensures |EncodeCompact(64, IntWidth, false)| == 2
    ensures |EncodeCompact(127, IntWidth, true)| == 1
    ensures |EncodeCompact(127, IntWidth, false)| == 2
    ensures |EncodeCompact(128, IntWidth, true)| == 2
    ensures |EncodeCompact(128, IntWidth, false)| == 2
    ensures |EncodeCompact(8191, IntWidth, true)| == 2
    ensures |EncodeCompact(8191, IntWidth, false)| == 2
    ensures |EncodeCompact(8192, IntWidth, true)| == 2
    ensures |EncodeCompact(8192, IntWidth, false)| == 3
  {
    CompactLengthIs(0, IntWidth, true, 1);
    CompactLengthIs(0, IntWidth, false, 1);
    CompactLengthIs(63, IntWidth, true, 1);
    CompactLengthIs(63, IntWidth, false, 1);
    CompactLengthIs(64, IntWidth, true, 1);
    CompactLengthIs(64, IntWidth, false, 2);
    CompactLengthIs(127, IntWidth, true, 1);
    CompactLengthIs(127, IntWidth, false, 2);
    CompactLengthIs(128, IntWidth, true, 2);
    CompactLengthIs(128, IntWidth, false, 2);
    CompactLengthIs(8191, IntWidth, true, 2);
    CompactLengthIs(8191, IntWidth, false, 2);
    CompactLengthIs(8192, IntWidth, true, 2);
    CompactLengthIs(8192, IntWidth, false, 3);
  }

  lemma IntLengths2()
    ensures |EncodeCompact(16383, IntWidth, true)| == 2
    ensures |EncodeCompact(16383, IntWidth, false)| == 3
    ensures |EncodeCompact(16384, IntWidth, true)| == 3
    ensures |EncodeCompact(16384, IntWidth, false)| == 3
    ensures |EncodeCompact(2097151, IntWidth, true)| == 3
    ensures |EncodeCompact(2097151, IntWidth, false)| == 4
    ensures |EncodeCompact(1048575, IntWidth, true)| == 3
    ensures |EncodeCompact(1048575, IntWidth, false)| == 3
    ensures |EncodeCompact(134217727, IntWidth, true)| == 4
    ensures |EncodeCompact(134217727, IntWidth, false)| == 4
    ensures |EncodeCompact(268435455, IntWidth, true)| == 4
    ensures |EncodeCompact(268435455, IntWidth, false)| == 5
    ensures |EncodeCompact(134217728, IntWidth, true)| == 4
    ensures |EncodeCompact(134217728, IntWidth, false)| == 5
  {
    CompactLengthIs(16383, IntWidth, true, 2);
    CompactLengthIs(16383, IntWidth, false, 3);
    CompactLengthIs(16384, IntWidth, true, 3);
    CompactLengthIs(16384, IntWidth, false, 3);
    CompactLengthIs(2097151, IntWidth, true, 3);
    CompactLengthIs(2097151, IntWidth, false, 4);
    CompactLengthIs(1048575, IntWidth, true, 3);
    CompactLengthIs(1048575, IntWidth, false, 3);
    CompactLengthIs(134217727, IntWidth, true, 4);
    CompactLengthIs(134217727, IntWidth, false, 4);
    CompactLengthIs(268435455, IntWidth, true, 4);
    CompactLengthIs(268435455, IntWidth, false, 5);
    CompactLengthIs(134217728, IntWidth, true, 4);
    CompactLengthIs(134217728, IntWidth, false, 5);
  }

  lemma IntLengths3()
    ensures |EncodeCompact(268435456, IntWidth, true)| == 5
    ensures |EncodeCompact(268435456, IntWidth, false)| == 5
    ensures |EncodeCompact(-64, IntWidth, false)| == 1
    ensures |EncodeCompact(-64, IntWidth, true)| == 5
    ensures |EncodeCompact(-65, IntWidth, false)| == 2
    ensures |EncodeCompact(-65, IntWidth, true)| == 5
    ensures |EncodeCompact(-8192, IntWidth, false)| == 2
    ensures |EncodeCompact(-8192, IntWidth, true)| == 5
    ensures |EncodeCompact(-1048576, IntWidth, false)| == 3
    ensures |EncodeCompact(-1048576, IntWidth, true)| == 5
    ensures |EncodeCompact(-134217728, IntWidth, false)| == 4
    ensures |EncodeCompact(-134217728, IntWidth, true)| == 5
    ensures |EncodeCompact(-134217729, IntWidth, false)| == 5
    ensures |EncodeCompact(-134217729, IntWidth, true)| == 5
  {
    CompactLengthIs(268435456, IntWidth, true, 5);
    CompactLengthIs(268435456, IntWidth, false, 5);
    CompactLengthIs(-64, IntWidth, false, 1);
    CompactLengthIs(-64, IntWidth, true, 5);
    CompactLengthIs(-65, IntWidth, false, 2);
    CompactLengthIs(-65, IntWidth, true, 5);
    CompactLengthIs(-8192, IntWidth, false, 2);
    CompactLengthIs(-8192, IntWidth, true, 5);
    CompactLengthIs(-1048576, IntWidth, false, 3);
    CompactLengthIs(-1048576, IntWidth, true, 5);
    CompactLengthIs(-134217728, IntWidth, false, 4);
    CompactLengthIs(-134217728, IntWidth, true, 5);
    CompactLengthIs(-134217729, IntWidth, false, 5);
    CompactLengthIs(-134217729, IntWidth, true, 5);
  }

  // The byte counts `writeLong(value, optimizePositive)` reports in the long test.

  lemma LongLengths1()
    ensures |EncodeCompact(0, LongWidth, true)| == 1
    ensures |EncodeCompact(0, LongWidth, false)| == 1
    ensures |EncodeCompact(63, LongWidth, true)| == 1
    ensures |EncodeCompact(63, LongWidth, false)| == 1
    ensures |EncodeCompact(64, LongWidth, true)| == 1
    ensures |EncodeCompact(64, LongWidth, false)| == 2
    ensures |EncodeCompact(127, LongWidth, true)| == 1
    ensures |EncodeCompact(127, LongWidth, false)| == 2
    ensures |EncodeCompact(128, LongWidth, true)| == 2
    ensures |EncodeCompact(128, LongWidth, false)| == 2
    ensures |EncodeCompact(8191, LongWidth, true)| == 2
    ensures |EncodeCompact(8191, LongWidth, false)| == 2
    ensures |EncodeCompact(8192, LongWidth, true)| == 2
    ensures |EncodeCompact(8192, LongWidth, false)| == 3
  {
    CompactLengthIs(0, LongWidth, true, 1);
    CompactLengthIs(0, LongWidth, false, 1);
    CompactLengthIs(63, LongWidth, true, 1);
    CompactLengthIs(63, LongWidth, false, 1);
    CompactLengthIs(64, LongWidth, true, 1);
    CompactLengthIs(64, LongWidth, false, 2);
    CompactLengthIs(127, LongWidth, true, 1);
    CompactLengthIs(127, LongWidth, false, 2);
    CompactLengthIs(128, LongWidth, true, 2);
    CompactLengthIs(128, LongWidth, false, 2);
    CompactLengthIs(8191, LongWidth, true, 2);
    CompactLengthIs(8191, LongWidth, false, 2);
    CompactLengthIs(8192, LongWidth, true, 2);
    CompactLengthIs(8192, LongWidth, false, 3);
  }

  lemma LongLengths2()
    ensures |EncodeCompact(16383, LongWidth, true)| == 2
    ensures |EncodeCompact(16383, LongWidth, false)| == 3
    ensures |EncodeCompact(16384, LongWidth, true)| == 3
    ensures |EncodeCompact(16384, LongWidth, false)| == 3
    ensures |EncodeCompact(2097151, LongWidth, true)| == 3
    ensures |EncodeCompact(2097151, LongWidth, false)| == 4
    ensures |EncodeCompact(1048575, LongWidth, true)| == 3
    ensures |EncodeCompact(1048575, LongWidth, false)| == 3
    ensures |EncodeCompact(134217727, LongWidth, true)| == 4
    ensures |EncodeCompact(134217727, LongWidth, false)| == 4
    ensures |EncodeCompact(268435455, LongWidth, true)| == 4
    ensures |EncodeCompact(268435455, LongWidth, false)| == 5
    ensures |EncodeCompact(134217728, LongWidth, true)| == 4
    ensures |EncodeCompact(134217728, LongWidth, false)| == 5
  {
    CompactLengthIs(16383, LongWidth, true, 2);
    CompactLengthIs(16383, LongWidth, false, 3);
    CompactLengthIs(16384, LongWidth, true, 3);
    CompactLengthIs(16384, LongWidth, false, 3);
    CompactLengthIs(2097151, LongWidth, true, 3);
    CompactLengthIs(2097151, LongWidth, false, 4);
    CompactLengthIs(1048575, LongWidth, true, 3);
    CompactLengthIs(1048575, LongWidth, false, 3);
    CompactLengthIs(134217727, LongWidth, true, 4);
    CompactLengthIs(134217727, LongWidth, false, 4);
    CompactLengthIs(268435455, LongWidth, true, 4);
    CompactLengthIs(268435455, LongWidth, false, 5);
    CompactLengthIs(134217728, LongWidth, true, 4);
    CompactLengthIs(134217728, LongWidth, false, 5);
  }

  lemma LongLengths3()
    ensures |EncodeCompact(268435456, LongWidth, true)| == 5
    ensures |EncodeCompact(268435456, LongWidth, false)| == 5
    ensures |EncodeCompact(-64, LongWidth, false)| == 1
    ensures |EncodeCompact(-64, LongWidth, true)| == 10
    ensures |EncodeCompact(-65, LongWidth, false)| == 2
    ensures |EncodeCompact(-65, LongWidth, true)| == 10
    ensures |EncodeCompact(-8192, LongWidth, false)| == 2
    ensures |EncodeCompact(-8192, LongWidth, true)| == 10
    ensures |EncodeCompact(-1048576, LongWidth, false)| == 3
    ensures |EncodeCompact(-1048576, LongWidth, true)| == 10
    ensures |EncodeCompact(-134217728, LongWidth, false)| == 4
    ensures |EncodeCompact(-134217728, LongWidth, true)| == 10
    ensures |EncodeCompact(-134217729, LongWidth, false)| == 5
    ensures |EncodeCompact(-134217729, LongWidth, true)| == 10
  {
    CompactLengthIs(268435456, LongWidth, true, 5);
    CompactLengthIs(268435456, LongWidth, false, 5);
    CompactLengthIs(-64, LongWidth, false, 1);
    CompactLengthIs(-64, LongWidth, true, 10);
    CompactLengthIs(-65, LongWidth, false, 2);
    CompactLengthIs(-65, LongWidth, true, 10);
    CompactLengthIs(-8192, LongWidth, false, 2);
    CompactLengthIs(-8192, LongWidth, true, 10);
    CompactLengthIs(-1048576, LongWidth, false, 3);
    CompactLengthIs(-1048576, LongWidth, true, 10);
    CompactLengthIs(-134217728, LongWidth, false, 4);
    CompactLengthIs(-134217728, LongWidth, true, 10);
    CompactLengthIs(-134217729, LongWidth, false, 5);
    CompactLengthIs(-134217729, LongWidth, true, 10);
  }

  // ---------------------------------------------------------------------
  // Byte counts of compact shorts
  // ---------------------------------------------------------------------

  /** The byte counts `writeShort(value, optimizePositive)` reports in the short test. */
  lemma ShortLengths()
    ensures |EncodeCompactShort(0, true)| == 1
    ensures |EncodeCompactShort(0, false)| == 1
    ensures |EncodeCompactShort(63, true)| == 1
    ensures |EncodeCompactShort(63, false)| == 1
    ensures |EncodeCompactShort(64, true)| == 1
    ensures |EncodeCompactShort(64, false)| == 1
    ensures |EncodeCompactShort(127, true)| == 1
    ensures |EncodeCompactShort(127, false)| == 1
    ensures |EncodeCompactShort(128, true)| == 1
    ensures |EncodeCompactShort(128, false)| == 3
    ensures |EncodeCompactShort(8191, true)| == 3
    ensures |EncodeCompactShort(8191, false)| == 3
    ensures |EncodeCompactShort(8192, true)| == 3
    ensures |EncodeCompactShort(8192, false)| == 3
    ensures |EncodeCompactShort(16383, true)| == 3
    ensures |EncodeCompactShort(16383, false)| == 3
    ensures |EncodeCompactShort(16384, true)| == 3
    ensures |EncodeCompactShort(16384, false)| == 3
    ensures |EncodeCompactShort(32767, true)| == 3
    ensures |EncodeCompactShort(32767, false)| == 3
    ensures |EncodeCompactShort(-64, false)| == 1
    ensures |EncodeCompactShort(-64, true)| == 3
    ensures |EncodeCompactShort(-65, false)| == 1
    ensures |EncodeCompactShort(-65, true)| == 3
    ensures |EncodeCompactShort(-8192, false)| == 3
    ensures |EncodeCompactShort(-8192, true)| == 3
  {
  }

  // ---------------------------------------------------------------------
  // Typed writes read back
  // ---------------------------------------------------------------------

  /**
   The shape of the typed tests: values written to a fresh buffer, its bytes
   handed to a read buffer, and the same values read back in order with the
   writer's kinds; nothing is left over, so `canReadInt` answers false.
   */
  lemma WriteThenRead(config: W.Config, vs: seq<Value>)
    requires Holds(config, |EncodeAll(vs)|)
    ensures W.WriteAll(W.NewWriteBuffer(config), vs).Ok?
    ensures var bytes := W.ToBytes(W.Flush(W.WriteAll(W.NewWriteBuffer(config), vs).value));
            var r := R.ReadAll(R.NewReadBuffer(bytes), KindsOf(vs));
            && bytes == EncodeAll(vs)
            && r.Ok? && r.value.0 == vs
            && R.Remaining(r.value.1) == [] && !R.CanReadInt(r.value.1)
  {
    var w := W.NewWriteBuffer(config);
    W.WriteAllAtEnd(w, vs);
    var bytes := W.ToBytes(W.Flush(W.WriteAll(w, vs).value));
    assert bytes == EncodeAll(vs) + [];
    R.ReadAllOfEncodeAll(R.NewReadBuffer(bytes), vs, []);
  }

  /** Bounds each value's encoding by `k` bytes. */
  ghost predicate EachAtMost(vs: seq<Value>, k: nat) {
    forall i | 0 <= i < |vs| :: |Encode(vs[i])| <= k
  }

  /**
   The typed tests' bounded buffer, 200 chunks of 2 bytes, holds any values
   of at most `k` bytes each that number at most 400 / k: the 200 booleans
   of the boolean test (one byte each), the 61 ints of the int test (at
   most five bytes each), the 9 chars of the char test (two bytes each).
   */
  lemma SmallChunksHold(vs: seq<Value>, k: nat)
    requires EachAtMost(vs, k) && k * |vs| <= 400
    ensures Holds(W.Config(2, Some(200)), |EncodeAll(vs)|)
  {
    W.ChunkBytesIsProduct(2, 200);
    EncodeAllLength(vs, k);
  }
}
