/**
 The enum serializer: an enum constant travels as its ordinal, a
 positive-optimised compact int, and is read back by indexing the enum
 type's constants. An enum type is given by its constants in ordinal order;
 a class that is not an enum has none (`None`), as `getEnumConstants`
 reports null for it.
 */
module Enums {
  import opened Results
  import opened Bytes
  import opened Base128
  import opened Codec

  datatype EnumSerializer<T> = EnumSerializer(constants: seq<T>)

  /** The largest Java `int`: ordinals and array lengths stay at or below it. */
  const MAX_ORDINAL: nat := 0x7FFF_FFFF

  /** The constructor: refuses a class that is not an enum. */
  function NewEnumSerializer<T>(constants: Option<seq<T>>): (r: Result<EnumSerializer<T>>)
    ensures r.Err? <==> constants.None?
    ensures r.Err? ==> r.error == NotAnEnum
    ensures r.Ok? ==> r.value.constants == constants.value
  {
    if constants.None? then Err(NotAnEnum) else Ok(EnumSerializer(constants.value))
  }

  /**
   `put`: the ordinal as a positive-optimised compact int. Ordinals below
   128^3 take one to three bytes, the reach of the "1-3 byte enum" promise;
   larger ones take four or five.
   */
  function Put(ordinal: nat): (bs: seq<byte>)
    requires ordinal <= MAX_ORDINAL
    ensures 1 <= |bs| <= 5
    ensures |bs| <= 3 <==> ordinal < Pow128(3)
    ensures |bs| == 1 <==> ordinal < 0x80
  {
    PositiveModeLength(ordinal, IntWidth, 3);
    PositiveModeLength(ordinal, IntWidth, 1);
    EncodeCompact(ordinal, IntWidth, true)
  }

  /** `writeObjectData`: the constant with the given ordinal, written by `put`. */
  function WriteObjectData<T>(s: EnumSerializer<T>, ordinal: nat): (bs: seq<byte>)
    requires ordinal < |s.constants| && ordinal <= MAX_ORDINAL
    ensures bs == Put(ordinal)
    ensures ReadObjectData(s, bs) == Ok((s.constants[ordinal], |bs|))
  {
    ReadOfPut(s, ordinal, []);
    assert Put(ordinal) + [] == Put(ordinal);
    Put(ordinal)
  }

  /**
   `readObjectData`: reads an ordinal and returns the constant it names and
   the bytes consumed; a negative ordinal or one past the last constant is
   refused.
   */
  function ReadObjectData<T>(s: EnumSerializer<T>, bs: seq<byte>): (r: Result<(T, nat)>)
    ensures r.Ok? ==> 1 <= r.value.1 <= |bs|
    ensures DecodeCompact(bs, IntWidth, true).Err? ==> r == Err(DecodeCompact(bs, IntWidth, true).error)
    ensures r.Err? && r.error == InvalidOrdinal <==>
              DecodeCompact(bs, IntWidth, true).Ok?
              && !(0 <= DecodeCompact(bs, IntWidth, true).value.0 < |s.constants|)
    ensures r.Ok? ==> var (ordinal, n) := DecodeCompact(bs, IntWidth, true).value;
                      0 <= ordinal < |s.constants| && r.value == (s.constants[ordinal], n)
  {
    var p :- DecodeCompact(bs, IntWidth, true);
    var ordinal := p.0;
    if ordinal < 0 || ordinal > |s.constants| - 1 then Err(InvalidOrdinal)
    else Ok((s.constants[ordinal], p.1))
  }

  /**
   The static `get`: a class that is not an enum is refused before any byte
   is read; an enum reads exactly as its serializer's `readObjectData`.
   */
  function Get<T>(constants: Option<seq<T>>, bs: seq<byte>): (r: Result<(T, nat)>)
    ensures constants.None? ==> r == Err(NotAnEnum)
    ensures constants.Some? ==> r == ReadObjectData(NewEnumSerializer(constants).value, bs)
  {
    if constants.None? then Err(NotAnEnum)
    else
      var p :- DecodeCompact(bs, IntWidth, true);
      var ordinal := p.0;
      if ordinal < 0 || ordinal > |constants.value| - 1 then Err(InvalidOrdinal)
      else Ok((constants.value[ordinal], p.1))
  }

  /** A written constant reads back as itself, consuming exactly its bytes. */
  lemma ReadOfPut<T>(s: EnumSerializer<T>, ordinal: nat, rest: seq<byte>)
    requires ordinal < |s.constants| && ordinal <= MAX_ORDINAL
    ensures ReadObjectData(s, Put(ordinal) + rest) == Ok((s.constants[ordinal], |Put(ordinal)|))
  {
    DecodeCompactOfEncodeCompact(ordinal, IntWidth, true, rest);
  }

  /**
   A compact int that a writer put in place of an ordinal reads back as the
   constant exactly when it is a valid ordinal of the reader's enum, and is
   refused as an invalid ordinal otherwise, negative values included.
   */
  lemma ReadOfCompactInt<T>(s: EnumSerializer<T>, v: int, rest: seq<byte>)
    requires IntWidth.InRange(v)
    ensures var r := ReadObjectData(s, EncodeCompact(v, IntWidth, true) + rest);
            && (r.Ok? <==> 0 <= v < |s.constants|)
            && (r.Ok? ==> r.value == (s.constants[v], |EncodeCompact(v, IntWidth, true)|))
            && (r.Err? ==> r.error == InvalidOrdinal)
  {
    DecodeCompactOfEncodeCompact(v, IntWidth, true, rest);
  }

  /** A serializer writes and reads back every constant of its enum, and so does the static `get`. */
  lemma RoundTrip<T>(constants: Option<seq<T>>, ordinal: nat, rest: seq<byte>)
    requires constants.Some? && ordinal < |constants.value| && ordinal <= MAX_ORDINAL
    ensures NewEnumSerializer(constants).Ok?
    ensures var s := NewEnumSerializer(constants).value;
            && ReadObjectData(s, WriteObjectData(s, ordinal) + rest)
               == Ok((constants.value[ordinal], |WriteObjectData(s, ordinal)|))
            && Get(constants, WriteObjectData(s, ordinal) + rest)
               == Ok((constants.value[ordinal], |WriteObjectData(s, ordinal)|))
  {
    ReadOfPut(NewEnumSerializer(constants).value, ordinal, rest);
  }
}
