/**
 The write side of the buffer layer. The chain of chunks is abstracted to the
 bytes it holds in order plus a write cursor; the chunk size survives only
 where it is observable, as the size of the blocks `popBytes` hands out and
 as the capacity bound `chunkSize * maxChunks`.

 Positions handed out by `mark` are global: they count the bytes already
 popped off the front, so a mark stays meaningful across `popBytes`.
 */
module WriteBuffers {
  import opened Results
  import opened Bytes
  import opened Codec

  /** Sizing chosen at construction: chunk size and optional maximum chunk count. */
  datatype Config = Config(chunkSize: nat, maxChunks: Option<nat>)

  predicate ValidConfig(c: Config) {
    c.chunkSize >= 1
  }

  /**
   The bytes held by `n` full chunks of `size` bytes, counted chunk by
   chunk (so that the solver sees a sum rather than a product).
   */
  function ChunkBytes(size: nat, n: nat): nat {
    if n == 0 then 0 else size + ChunkBytes(size, n - 1)
  }

  lemma {:induction false} ChunkBytesIsProduct(size: nat, n: nat)
    ensures ChunkBytes(size, n) == size * n
  {
    if n > 0 {
      ChunkBytesIsProduct(size, n - 1);
      assert size * n == size + size * (n - 1);
    }
  }

  /** The most bytes a bounded configuration may buffer at once: `chunkSize * maxChunks`. */
  function Capacity(c: Config): nat
    requires c.maxChunks.Some?
  {
    ChunkBytes(c.chunkSize, c.maxChunks.value)
  }

  /** Whether `size` bytes may be buffered at once under `c`. */
  predicate Fits(c: Config, size: nat) {
    c.maxChunks.None? || size <= Capacity(c)
  }

  /** `popped` bytes already handed out, `data` still held, `cursor` an index into `data`. */
  datatype WriteState = WriteState(config: Config, popped: nat, data: seq<byte>, cursor: nat)

  /** The buffered bytes never exceed the configured capacity. */
  type WriteBuffer = w: WriteState | ValidConfig(w.config) && w.cursor <= |w.data| && Fits(w.config, |w.data|)
    witness WriteState(Config(1, None), 0, [], 0)

  function NewWriteBuffer(config: Config): (w: WriteBuffer)
    requires ValidConfig(config)
    ensures ToBytes(w) == [] && Mark(w) == 0
  {
    WriteState(config, 0, [], 0)
  }

  /** The same bytes, cursor and popped count: everything but the sizing. */
  predicate SameContent(a: WriteBuffer, b: WriteBuffer) {
    a.popped == b.popped && a.data == b.data && a.cursor == b.cursor
  }

  function Max(a: nat, b: nat): nat {
    if a >= b then a else b
  }

  /**
   What one write of `bs` does to `w`, byte by byte: positions from the
   cursor on take the new bytes, every other position keeps its old byte,
   the data grows only where the write runs past its end, and the cursor
   ends just after the written bytes.
   */
  ghost predicate Written(w: WriteBuffer, bs: seq<byte>, w': WriteBuffer) {
    && w'.config == w.config
    && w'.popped == w.popped
    && w'.cursor == w.cursor + |bs|
    && |w'.data| == Max(|w.data|, w.cursor + |bs|)
    && forall i :: 0 <= i < |w'.data| ==>
         w'.data[i] == if w.cursor <= i < w'.cursor then bs[i - w.cursor] else w.data[i]
  }

  /** Writes `bs` at the cursor; fails when the result would exceed the configured capacity. */
  function WriteBytes(w: WriteBuffer, bs: seq<byte>): (r: Result<WriteBuffer>)
    ensures r.Err? <==> !Fits(w.config, Max(|w.data|, w.cursor + |bs|))
    ensures r.Err? ==> r.error == CapacityExceeded
    ensures r.Ok? ==> Written(w, bs, r.value)
  {
    var end := w.cursor + |bs|;
    if !Fits(w.config, Max(|w.data|, end)) then Err(CapacityExceeded)
    else
      var tail := if end <= |w.data| then w.data[end..] else [];
      Ok(w.(data := w.data[..w.cursor] + bs + tail, cursor := end))
  }

  /** Writes one byte at the cursor, under the same capacity rule as a block. */
  function WriteByte(w: WriteBuffer, b: byte): (r: Result<WriteBuffer>)
    ensures r.Err? <==> !Fits(w.config, Max(|w.data|, w.cursor + 1))
    ensures r.Ok? ==> Written(w, [b], r.value) && r.value.data[w.cursor] == b
  {
    WriteBytes(w, [b])
  }

  /**
   One typed write call: the buffer after it, and the number of bytes it
   used, which callers use to size length prefixes.
   */
  function WriteValue(w: WriteBuffer, v: Value): (r: Result<(nat, WriteBuffer)>)
    ensures r.Ok? ==> r.value.0 == |Encode(v)| && Written(w, Encode(v), r.value.1)
    ensures r.Err? <==> !Fits(w.config, Max(|w.data|, w.cursor + |Encode(v)|))
  {
    var w' :- WriteBytes(w, Encode(v));
    Ok((|Encode(v)|, w'))
  }

  /** The current global position, as a handle for `PositionToMark`. */
  function Mark(w: WriteBuffer): nat {
    w.popped + w.cursor
  }

  /** Moves the cursor to a mark inside the bytes still held; nothing else changes. */
  function PositionToMark(w: WriteBuffer, mark: nat): (r: Result<WriteBuffer>)
    ensures r.Ok? <==> w.popped <= mark <= w.popped + |w.data|
    ensures r.Err? ==> r.error == InvalidMark
    ensures r.Ok? ==> Mark(r.value) == mark && r.value.data == w.data
    ensures r.Ok? ==> r.value.popped == w.popped && r.value.config == w.config
  {
    if w.popped <= mark <= w.popped + |w.data| then Ok(w.(cursor := mark - w.popped))
    else Err(InvalidMark)
  }

  /** Every held byte in order. A query: the buffer is unchanged. */
  function ToBytes(w: WriteBuffer): seq<byte> {
    w.data
  }

  /** Chunk bookkeeping has no observable effect on the held bytes. */
  function Flush(w: WriteBuffer): (w': WriteBuffer)
    ensures ToBytes(w') == ToBytes(w) && Mark(w') == Mark(w)
  {
    w
  }

  function Min(a: nat, b: nat): nat {
    if a <= b then a else b
  }

  /**
   Removes the oldest block of up to one chunk of bytes that lie before the
   cursor. The block and the bytes left behind make up the old contents, and
   the global position is unchanged, so existing marks keep their meaning.
   */
  function PopBytes(w: WriteBuffer): (r: (seq<byte>, WriteBuffer))
    ensures |r.0| == Min(w.config.chunkSize, w.cursor)
    ensures r.0 + ToBytes(r.1) == ToBytes(w)
    ensures Mark(r.1) == Mark(w) && r.1.popped == w.popped + |r.0|
    ensures r.1.config == w.config
  {
    var k := Min(w.config.chunkSize, w.cursor);
    assert w.data[..k] + w.data[k..] == w.data;
    (w.data[..k], w.(popped := w.popped + k, data := w.data[k..], cursor := w.cursor - k))
  }

  /** Pops until nothing before the cursor is left. */
  function PopAll(w: WriteBuffer): seq<seq<byte>>
    decreases w.cursor
  {
    if w.cursor == 0 then []
    else
      var (block, w') := PopBytes(w);
      [block] + PopAll(w')
  }

  function Flatten(blocks: seq<seq<byte>>): seq<byte> {
    if |blocks| == 0 then [] else blocks[0] + Flatten(blocks[1..])
  }

  /** Flattening distributes over concatenation of block lists. */
  lemma {:induction false} FlattenAppend(a: seq<seq<byte>>, b: seq<seq<byte>>)
    ensures Flatten(a + b) == Flatten(a) + Flatten(b)
    decreases |a|
  {
    if |a| > 0 {
      assert (a + b)[1..] == a[1..] + b;
      FlattenAppend(a[1..], b);
      AppendAssociative(a[0], Flatten(a[1..]), Flatten(b));
    } else {
      assert a + b == b;
    }
  }

  /**
   Repeated popping hands out everything written before the cursor, in
   order, and every block but the last is exactly one chunk long.
   */
  lemma {:induction false} PopAllCompleteness(w: WriteBuffer)
    ensures Flatten(PopAll(w)) == w.data[..w.cursor]
    ensures forall i :: 0 <= i < |PopAll(w)| - 1 ==> |PopAll(w)[i]| == w.config.chunkSize
    decreases w.cursor
  {
    if w.cursor > 0 {
      var (block, w') := PopBytes(w);
      PopAllCompleteness(w');
      assert PopAll(w) == [block] + PopAll(w');
      assert w.data[..w.cursor] == block + w'.data[..w'.cursor] by {
        assert w.data == block + w'.data;
      }
      if |PopAll(w')| > 0 {
        assert |block| == w.config.chunkSize;
      }
    }
  }

  /** When `n` whole chunks precede the cursor, popping yields exactly `n` full chunks. */
  lemma {:induction false} PopAllAligned(w: WriteBuffer, n: nat)
    requires w.cursor == ChunkBytes(w.config.chunkSize, n)
    ensures |PopAll(w)| == n
    ensures forall i :: 0 <= i < n ==> |PopAll(w)[i]| == w.config.chunkSize
    decreases n
  {
    if n > 0 {
      var (block, w') := PopBytes(w);
      PopAllAligned(w', n - 1);
      assert PopAll(w) == [block] + PopAll(w');
    }
  }

  // ---------------------------------------------------------------------
  // Sequences of calls
  // ---------------------------------------------------------------------

  /** Two successive writes leave the same buffer as one write of both byte blocks. */
  lemma WriteBytesConcat(w: WriteBuffer, a: seq<byte>, b: seq<byte>)
    requires WriteBytes(w, a + b).Ok?
    ensures WriteBytes(w, a).Ok?
    ensures WriteBytes(WriteBytes(w, a).value, b) == WriteBytes(w, a + b)
  {
    var both := WriteBytes(w, a + b).value;
    assert WriteBytes(w, a).Ok? by {
      assert Max(|w.data|, w.cursor + |a|) <= |both.data|;
    }
    var first := WriteBytes(w, a).value;
    assert WriteBytes(first, b).Ok? by {
      assert Max(|first.data|, first.cursor + |b|) == |both.data|;
    }
    var second := WriteBytes(first, b).value;
    assert |second.data| == |both.data|;
    forall i | 0 <= i < |both.data|
      ensures second.data[i] == both.data[i]
    {
      if w.cursor <= i < w.cursor + |a| {
        assert (a + b)[i - w.cursor] == a[i - w.cursor];
      } else if w.cursor + |a| <= i < w.cursor + |a| + |b| {
        assert (a + b)[i - w.cursor] == b[i - w.cursor - |a|];
      }
    }
    assert second.data == both.data;
  }

  /** Writing at the end appends. */
  lemma WriteBytesAtEnd(w: WriteBuffer, bs: seq<byte>)
    requires w.cursor == |w.data|
    requires Fits(w.config, |w.data| + |bs|)
    ensures WriteBytes(w, bs).Ok?
    ensures WriteBytes(w, bs).value.data == w.data + bs
    ensures WriteBytes(w, bs).value.cursor == |w.data| + |bs|
  {
    var w' := WriteBytes(w, bs).value;
    assert forall i :: 0 <= i < |w'.data| ==> w'.data[i] == (w.data + bs)[i];
  }

  /** Writes the values in order. */
  function WriteAll(w: WriteBuffer, vs: seq<Value>): Result<WriteBuffer>
    decreases |vs|
  {
    if |vs| == 0 then Ok(w)
    else
      var w' :- WriteBytes(w, Encode(vs[0]));
      WriteAll(w', vs[1..])
  }

  /** Writing values from the end of the data appends their encodings back to back. */
  lemma {:induction false} WriteAllAtEnd(w: WriteBuffer, vs: seq<Value>)
    requires w.cursor == |w.data|
    requires Fits(w.config, |w.data| + |EncodeAll(vs)|)
    ensures WriteAll(w, vs).Ok?
    ensures WriteAll(w, vs).value.data == w.data + EncodeAll(vs)
    ensures WriteAll(w, vs).value.cursor == |WriteAll(w, vs).value.data|
    decreases |vs|
  {
    if |vs| > 0 {
      var w1 := WriteAllFirst(w, vs);
      WriteAllAtEnd(w1, vs[1..]);
      assert w.data + EncodeAll(vs) == w1.data + EncodeAll(vs[1..]);
    }
  }

  /** The first step of `WriteAllAtEnd`: the head value appended, the rest still fitting. */
  lemma WriteAllFirst(w: WriteBuffer, vs: seq<Value>) returns (w1: WriteBuffer)
    requires |vs| > 0
    requires w.cursor == |w.data|
    requires Fits(w.config, |w.data| + |EncodeAll(vs)|)
    ensures w1.config == w.config && w1.cursor == |w1.data|
    ensures w1.data == w.data + Encode(vs[0])
    ensures w.data + EncodeAll(vs) == w1.data + EncodeAll(vs[1..])
    ensures Fits(w1.config, |w1.data| + |EncodeAll(vs[1..])|)
    ensures WriteAll(w, vs) == WriteAll(w1, vs[1..])
  {
    var head := Encode(vs[0]);
    var tail := EncodeAll(vs[1..]);
    assert EncodeAll(vs) == head + tail;
    WriteBytesAtEnd(w, head);
    w1 := WriteBytes(w, head).value;
    AppendAssociative(w.data, head, tail);
    assert |w1.data| + |tail| == |w.data| + |EncodeAll(vs)|;
  }

  /** The calls a writer can make that change the buffer. */
  datatype WriteOp = Put(bytes: seq<byte>) | Reposition(mark: nat)

  function Step(w: WriteBuffer, op: WriteOp): Result<WriteBuffer> {
    match op
    case Put(bs) => WriteBytes(w, bs)
    case Reposition(m) => PositionToMark(w, m)
  }

  function Run(w: WriteBuffer, ops: seq<WriteOp>): Result<WriteBuffer>
    decreases |ops|
  {
    if |ops| == 0 then Ok(w)
    else
      var w' :- Step(w, ops[0]);
      Run(w', ops[1..])
  }

  /**
   The chunk configuration is invisible in the bytes: whatever succeeds
   under a bounded configuration also succeeds, with the same contents and
   cursor, under an unbounded one with any chunk size.
   */
  lemma {:induction false} RunIgnoresChunking(w1: WriteBuffer, w2: WriteBuffer, ops: seq<WriteOp>)
    requires SameContent(w1, w2)
    requires w2.config.maxChunks.None?
    ensures Run(w1, ops).Ok? ==> Run(w2, ops).Ok? && SameContent(Run(w1, ops).value, Run(w2, ops).value)
    decreases |ops|
  {
    if |ops| > 0 && Step(w1, ops[0]).Ok? {
      var s1 := Step(w1, ops[0]).value;
      var s2 := Step(w2, ops[0]);
      assert s2.Ok?;
      assert s1.data == s2.value.data;
      RunIgnoresChunking(s1, s2.value, ops[1..]);
    }
  }

  /** A write that ends inside the held data replaces exactly its span and nothing else. */
  lemma WriteBytesInside(w: WriteBuffer, bs: seq<byte>)
    requires w.cursor + |bs| <= |w.data|
    ensures WriteBytes(w, bs).Ok?
    ensures WriteBytes(w, bs).value.data
         == w.data[..w.cursor] + bs + w.data[w.cursor + |bs|..]
  {
    var w' := WriteBytes(w, bs).value;
    var expected := w.data[..w.cursor] + bs + w.data[w.cursor + |bs|..];
    assert forall i :: 0 <= i < |w'.data| ==> w'.data[i] == expected[i];
  }

  /**
   The backpatch protocol: after A (already written), write B, go back to
   the mark before B and write a shorter C, then go to the mark after B and
   write D. Only the first |C| bytes of B are replaced; the rest of B
   survives and D follows it.
   */
  lemma Backpatch(w: WriteBuffer, b: seq<byte>, c: seq<byte>, d: seq<byte>)
    requires w.cursor == |w.data|
    requires |c| <= |b|
    requires Fits(w.config, |w.data| + |b| + |d|)
    ensures var start := Mark(w);
            var end := start + |b|;
            var r := Run(w, [Put(b), Reposition(start), Put(c), Reposition(end), Put(d)]);
            r.Ok? && ToBytes(r.value) == w.data + c + b[|c|..] + d
  {
    var start := Mark(w);
    var end := start + |b|;
    var ops := [Put(b), Reposition(start), Put(c), Reposition(end), Put(d)];
    OverwriteFront(w, b, c);
    var w1 := WriteBytes(w, b).value;
    var w2 := PositionToMark(w1, start).value;
    var w3 := WriteBytes(w2, c).value;
    var w4 := PositionToMark(w3, end).value;
    assert w4.cursor == |w4.data| && w4.data == w.data + c + b[|c|..] by {
      assert |w3.data| == |w.data| + |b|;
    }
    assert Fits(w4.config, |w4.data| + |d|) by {
      assert |w4.data| + |d| == |w.data| + |b| + |d|;
    }
    WriteBytesAtEnd(w4, d);
    var w5 := WriteBytes(w4, d).value;
    assert Run(w, ops) == Ok(w5) by {
      RunStep(w, ops, w1);
      RunStep(w1, ops[1..], w2);
      RunStep(w2, ops[2..], w3);
      RunStep(w3, ops[3..], w4);
      RunStep(w4, ops[4..], w5);
      assert ops[4..][1..] == [];
    }
  }

  /** The first three steps of the backpatch: B appended, then its front overwritten by C. */
  lemma OverwriteFront(w: WriteBuffer, b: seq<byte>, c: seq<byte>)
    requires w.cursor == |w.data|
    requires |c| <= |b|
    requires Fits(w.config, |w.data| + |b|)
    ensures WriteBytes(w, b).Ok?
    ensures PositionToMark(WriteBytes(w, b).value, Mark(w)).Ok?
    ensures var w2 := PositionToMark(WriteBytes(w, b).value, Mark(w)).value;
            && WriteBytes(w2, c).Ok?
            && WriteBytes(w2, c).value.data == w.data + c + b[|c|..]
            && WriteBytes(w2, c).value.cursor == |w.data| + |c|
  {
    WriteBytesAtEnd(w, b);
    var w1 := WriteBytes(w, b).value;
    var w2 := PositionToMark(w1, Mark(w)).value;
    WriteBytesInside(w2, c);
    assert w1.data[..|w.data|] == w.data;
    assert w1.data[|w.data| + |c|..] == b[|c|..];
  }

  /** The write calls that write the given blocks one after another. */
  function Puts(blocks: seq<seq<byte>>): (ops: seq<WriteOp>)
    ensures |ops| == |blocks|
    ensures forall i | 0 <= i < |blocks| :: ops[i] == Put(blocks[i])
  {
    if |blocks| == 0 then [] else [Put(blocks[0])] + Puts(blocks[1..])
  }

  /**
   Blocks written one after another from the end of the data are appended
   in call order, whatever the chunk size, as long as the total fits.
   */
  lemma {:induction false} PutsAppend(w: WriteBuffer, blocks: seq<seq<byte>>)
    requires w.cursor == |w.data|
    requires Fits(w.config, |w.data| + |Flatten(blocks)|)
    ensures Run(w, Puts(blocks)).Ok?
    ensures Run(w, Puts(blocks)).value.data == w.data + Flatten(blocks)
    ensures Run(w, Puts(blocks)).value.cursor == |w.data| + |Flatten(blocks)|
    ensures Run(w, Puts(blocks)).value.popped == w.popped
    ensures Run(w, Puts(blocks)).value.config == w.config
    decreases |blocks|
  {
    if |blocks| > 0 {
      var head := blocks[0];
      var tail := Flatten(blocks[1..]);
      assert Flatten(blocks) == head + tail;
      WriteBytesAtEnd(w, head);
      var w1 := WriteBytes(w, head).value;
      RunStep(w, Puts(blocks), w1);
      assert Puts(blocks)[1..] == Puts(blocks[1..]);
      AppendAssociative(w.data, head, tail);
      PutsAppend(w1, blocks[1..]);
    }
  }

  lemma RunStep(w: WriteBuffer, ops: seq<WriteOp>, next: WriteBuffer)
    requires |ops| > 0 && Step(w, ops[0]) == Ok(next)
    ensures Run(w, ops) == Run(next, ops[1..])
  {
  }
}
