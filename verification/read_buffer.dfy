/**
 The read side of the buffer layer. The refill source is abstracted to the
 finite byte sequence it delivers, and the chunk chain to a read position
 in that sequence; marks are positions in it.
 */
module ReadBuffers {
  import opened Results
  import opened Bytes
  import opened Base128
  import opened Codec

  datatype ReadState = ReadState(source: seq<byte>, pos: nat)

  type ReadBuffer = r: ReadState | r.pos <= |r.source| witness ReadState([], 0)

  /** A buffer over bytes already in hand, such as another buffer's `ToBytes`. */
  function NewReadBuffer(bytes: seq<byte>): (r: ReadBuffer)
    ensures Remaining(r) == bytes && Mark(r) == 0
  {
    ReadState(bytes, 0)
  }

  /** The bytes not read yet. */
  function Remaining(r: ReadBuffer): seq<byte> {
    r.source[r.pos..]
  }

  function ReadBytes(r: ReadBuffer, n: nat): (res: Result<(seq<byte>, ReadBuffer)>)
    ensures res.Ok? <==> n <= |Remaining(r)|
    ensures res.Err? ==> res.error == EndOfData
    ensures res.Ok? ==> res.value.0 + Remaining(res.value.1) == Remaining(r)
    ensures res.Ok? ==> |res.value.0| == n && res.value.1.source == r.source
  {
    if r.pos + n > |r.source| then Err(EndOfData)
    else
      assert r.source[r.pos..r.pos + n] + r.source[r.pos + n..] == r.source[r.pos..];
      Ok((r.source[r.pos..r.pos + n], r.(pos := r.pos + n)))
  }

  function ReadByte(r: ReadBuffer): (res: Result<(byte, ReadBuffer)>)
    ensures res.Ok? <==> |Remaining(r)| >= 1
    ensures res.Ok? ==> [res.value.0] + Remaining(res.value.1) == Remaining(r)
    ensures res.Ok? ==> res.value.1.source == r.source
    ensures res.Ok? ==> res.value == (r.source[r.pos], r.(pos := r.pos + 1))
  {
    var p :- ReadBytes(r, 1);
    Ok((p.0[0], p.1))
  }

  /** The current position, as a handle for `PositionToMark`. */
  function Mark(r: ReadBuffer): nat {
    r.pos
  }

  /**
   Moves to a mark, backward to re-read or forward to skip; a mark beyond
   the available data is refused.
   */
  function PositionToMark(r: ReadBuffer, mark: nat): (res: Result<ReadBuffer>)
    ensures res.Ok? <==> mark <= |r.source|
    ensures res.Err? ==> res.error == InvalidMark
    ensures res.Ok? ==> Mark(res.value) == mark && res.value.source == r.source
  {
    if mark <= |r.source| then Ok(r.(pos := mark)) else Err(InvalidMark)
  }

  /** One typed read call: the value of the asked-for kind and the buffer after it. */
  function ReadValue(r: ReadBuffer, k: Kind): (res: Result<(Value, ReadBuffer)>)
    ensures res.Ok? ==> KindOf(res.value.0) == k && res.value.1.source == r.source
    ensures res.Ok? ==> Mark(r) < Mark(res.value.1)
  {
    var p :- Decode(k, Remaining(r));
    Ok((p.0, r.(pos := r.pos + p.1)))
  }

  /**
   Whether one compact int is fully available: a peek that consumes
   nothing, and that holds exactly when a compact int read would succeed,
   in either mode.
   */
  function CanReadInt(r: ReadBuffer): (b: bool)
    ensures b <==> ReadValue(r, IntKind(Compact(true))).Ok?
    ensures b <==> ReadValue(r, IntKind(Compact(false))).Ok?
    ensures Remaining(r) == [] ==> !b
  {
    ParseVarint(Remaining(r), IntWidth.MaxBytes()).Ok?
  }

  /** Reads values of the given kinds in order. */
  function ReadAll(r: ReadBuffer, ks: seq<Kind>): (res: Result<(seq<Value>, ReadBuffer)>)
    ensures res.Ok? ==> |res.value.0| == |ks|
    decreases |ks|
  {
    if |ks| == 0 then Ok(([], r))
    else
      var first :- ReadValue(r, ks[0]);
      var others :- ReadAll(first.1, ks[1..]);
      Ok(([first.0] + others.0, others.1))
  }

  /**
   Values written back to back read back in order when the reader asks for
   the writer's kinds and modes: no length or separator is needed between
   them, strings included.
   */
  lemma {:induction false} ReadAllOfEncodeAll(r: ReadBuffer, vs: seq<Value>, rest: seq<byte>)
    requires Remaining(r) == EncodeAll(vs) + rest
    ensures ReadAll(r, KindsOf(vs)).Ok?
    ensures ReadAll(r, KindsOf(vs)).value.0 == vs
    ensures Remaining(ReadAll(r, KindsOf(vs)).value.1) == rest
    ensures ReadAll(r, KindsOf(vs)).value.1.source == r.source
    decreases |vs|
  {
    if |vs| > 0 {
      var r1 := ReadAllFirst(r, vs, rest);
      ReadAllOfEncodeAll(r1, vs[1..], rest);
      assert KindsOf(vs)[1..] == KindsOf(vs[1..]);
      assert [vs[0]] + vs[1..] == vs;
    }
  }

  /** The first step of `ReadAllOfEncodeAll`: the head value read, the rest of the encodings next. */
  lemma ReadAllFirst(r: ReadBuffer, vs: seq<Value>, rest: seq<byte>) returns (r1: ReadBuffer)
    requires |vs| > 0
    requires Remaining(r) == EncodeAll(vs) + rest
    ensures r1.source == r.source
    ensures Remaining(r1) == EncodeAll(vs[1..]) + rest
    ensures ReadValue(r, KindOf(vs[0])) == Ok((vs[0], r1))
  {
    var head := Encode(vs[0]);
    var tail := EncodeAll(vs[1..]);
    assert Remaining(r) == head + (tail + rest) by {
      assert EncodeAll(vs) == head + tail;
      AppendAssociative(head, tail, rest);
    }
    r1 := ReadValueOfEncode(r, vs[0], tail + rest);
  }

  /** One value read back with the writer's kind: the value, and the bytes after its encoding. */
  lemma ReadValueOfEncode(r: ReadBuffer, v: Value, rest: seq<byte>) returns (r1: ReadBuffer)
    requires Remaining(r) == Encode(v) + rest
    ensures ReadValue(r, KindOf(v)) == Ok((v, r1))
    ensures r1.source == r.source && Remaining(r1) == rest
  {
    var e := Encode(v);
    DecodeOfEncode(v, rest);
    r1 := ReadValueOfDecode(r, KindOf(v), v, |e|);
    assert (e + rest)[|e|..] == rest;
  }

  lemma ReadValueOfDecode(r: ReadBuffer, k: Kind, v: Value, n: nat) returns (r1: ReadBuffer)
    requires Decode(k, Remaining(r)) == Ok((v, n))
    ensures ReadValue(r, k) == Ok((v, r1))
    ensures r1.source == r.source && r1.pos == r.pos + n
    ensures Remaining(r1) == Remaining(r)[n..]
  {
    r1 := r.(pos := r.pos + n);
  }
}
