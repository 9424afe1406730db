# Kryo core in Dafny

A model of three pieces of Kryo, the Java object-graph serializer:

- **The buffer codec** (`WriteBuffer`/`ReadBuffer` of the kryo2 package). Its behaviour is pinned down by `BufferTest.java`:
  - fixed-width and compact (varint) ints and longs, in both the positive-optimised and the ZigZag mode;
  - compact shorts;
  - booleans, chars and strings;
  - writes, marks and repositioning on the write side;
  - `toBytes`, `flush` and `popBytes`;
  - reads, marks and rewinds on the read side;
  - the `canReadInt` peek.
- **The class registry of `Kryo.java`**:
  - the constructor's 17 built-in registrations;
  - `register(Class, Serializer)`, `register(Class)` and the private `register(Class, short, Serializer)`;
  - both `getRegisteredClass` lookups;
  - `writeClass`/`readClass`;
  - the null sentinel of `writeClassAndObject` and `writeObject`.
- **`EnumSerializer`**: the enum check of its constructor, `put`, `writeObjectData`, `readObjectData` and the static `get`.

Every operation is a pure function over immutable states, except three short methods that replay the read-marks test. Failures the Java code signals with exceptions are values of `Results.Result`.

| file | module | contents |
|---|---|---|
| `results.dfy` | `Results` | error kinds, `Result`, `Option` |
| `bytes.dfy` | `Bytes` | byte and Java integer types, two's complement, big-endian fixed widths |
| `varint.dfy` | `Base128` | base-128 varints, bounded parsing, ZigZag |
| `codec.dfy` | `Codec` | per-type encodings; `Value`/`Kind`; `Encode`/`Decode` and their round trips |
| `write_buffer.dfy` | `WriteBuffers` | the write buffer: bytes, cursor, popped count, capacity |
| `read_buffer.dfy` | `ReadBuffers` | the read buffer: source and position; typed reads; `CanReadInt` |
| `buffer_examples.dfy` | `BufferExamples` | the buffer tests' scenarios and reported byte counts |
| `registry.dfy` | `Registry` | the class registry, its invariant, and the id-counter finding |
| `enum_serializer.dfy` | `Enums` | the enum serializer |

### Buffer semantics

- **Write buffer.**
  - A write buffer is the bytes it holds, a write cursor into them, and the number of bytes already popped off the front.
  - A write replaces the bytes from the cursor on and extends the data only past its end.
  - `mark` is the global position, popped bytes plus cursor.
  - `popBytes` hands out at most one chunk of the bytes before the cursor.
  - The chunk chain is not modelled. What remains of it is the chunk size, as the size of popped blocks, and the capacity `chunkSize * maxChunks`.
- **Read buffer.** A read buffer is a fixed byte source plus a position. Marks are positions.
- **Compact ints and longs.** They are base-128 varints of at most 5 or 10 bytes:
  - with `optimizePositive`, of the two's-complement bit pattern;
  - otherwise, of the ZigZag code.
  - Bits beyond the width are dropped on reading, as Java's shifts drop them.
- **Compact shorts.** A compact short takes one byte or three: a marker byte, then the fixed 2-byte form.
  - The one-byte range is 0..254 with `optimizePositive`, with marker 255.
  - Otherwise it is -127..127, with marker 0x80.
  - These ranges agree with every byte count the short test asserts.
- **Fixed widths** are big-endian, as `java.nio` writes them. `writeInt(v)` and `readInt()` without a flag use the fixed 4-byte form.
- **Strings** are a character count followed by one to three bytes per UTF-16 unit. They read back with no external length.

## Model

| member | source | states |
|---|---|---|
| Codec.EncodeCompact | src/com/esotericsoftware/kryo2/BufferTest.java:186-227 | a compact int takes 1 to 5 bytes and a compact long 1 to 10, in either mode |
| Codec.DecodeCompact | src/com/esotericsoftware/kryo2/BufferTest.java:229-293 | a compact read fails exactly when none of the first 5 (int) or 10 (long) bytes ends the varint, with EndOfData exactly when the input is shorter than that width and MalformedVarint otherwise; a value read always lies in the type's range |
| Base128.ParseVarint | src/com/esotericsoftware/kryo2/BufferTest.java:229-293 | a varint read of at most maxLen bytes fails exactly when none of the bytes it may read is a final byte (`NoTerminator`), short input as EndOfData, an over-long varint as MalformedVarint; a success consumes a well-terminated prefix of 1..maxLen bytes |
| Base128.NoTerminatorEverywhere | src/com/esotericsoftware/kryo2/BufferTest.java:229-293 | `NoTerminator(bs, maxLen)` holds exactly when every byte among the first maxLen of bs carries the continuation bit |
| Codec.DecodeCompactOfEncodeCompact | src/com/esotericsoftware/kryo2/BufferTest.java:166-295 | every int or long read back in the writer's mode is the value written, and it consumes exactly the written bytes, whatever follows them |
| Codec.PositiveModeLength | src/com/esotericsoftware/kryo2/BufferTest.java:186-227 | with optimizePositive, a non-negative value fits in k bytes exactly when it is below 128^k; every negative value takes the full width (5 or 10 bytes) |
| Codec.SignedModeLength | src/com/esotericsoftware/kryo2/BufferTest.java:186-227 | without optimizePositive, a value fits in k bytes exactly when it lies in [-64·128^(k-1), 64·128^(k-1)), so -64..63 take one byte and 64 and -65 take two |
| Base128.ParseVarintOfVarint | src/com/esotericsoftware/kryo2/BufferTest.java:229-293 | a varint of at most the allowed width parses back to its value and length, whatever bytes follow it |
| Base128.UnZigZagOfZigZag | src/com/esotericsoftware/kryo2/BufferTest.java:272-293 | the ZigZag map is undone exactly, negatives included |
| Codec.DecodeFixedOfEncodeFixed | src/com/esotericsoftware/kryo2/BufferTest.java:166-248 | a fixed-width int, long or short reads back unchanged in the width it was written with |
| Codec.EncodeCompactShort | src/com/esotericsoftware/kryo2/BufferTest.java:450-475 | a compact short takes one byte exactly when it is in its mode's one-byte range and three bytes otherwise; the three-byte form, and only it, starts with the marker |
| Codec.DecodeCompactShort | src/com/esotericsoftware/kryo2/BufferTest.java:476-518 | a compact short read fails exactly on empty input or on a marker with fewer than two bytes after it, as EndOfData; it consumes three bytes exactly when the first is the marker, and a one-byte value lies in the mode's one-byte range |
| Codec.DecodeCompactShortOfEncode | src/com/esotericsoftware/kryo2/BufferTest.java:434-518 | every short, -32768 and 32767 included, reads back in the writer's mode, consuming exactly its bytes |
| Codec.DecodeCharOfEncodeChar | src/com/esotericsoftware/kryo2/BufferTest.java:143-159 | every UTF-16 unit 0..65535, as one character of a string, reads back unchanged from its one to three bytes, consuming exactly them |
| Codec.DecodeStringOfEncodeString | src/com/esotericsoftware/kryo2/BufferTest.java:143-159 | every string, including characters outside ASCII, reads back, consuming exactly its own bytes, so strings need no external length between them |
| Codec.DecodeString | src/com/esotericsoftware/kryo2/BufferTest.java:143-159 | a string read fails as its length read fails, refuses a negative length, and otherwise returns exactly that many characters within the input |
| Codec.DecodeOfEncode | src/com/esotericsoftware/kryo2/BufferTest.java:143-159 | every typed value reads back as itself with the writer's kind, consuming exactly its encoding |
| Codec.Decode | src/com/esotericsoftware/kryo2/BufferTest.java:716-749 | a typed read returns a value of the kind asked for and consumes at least one byte and no more than there are |
| Codec.DecodeFailures | src/com/esotericsoftware/kryo2/BufferTest.java:229-294 | a fixed-width read fails exactly when fewer bytes remain than its width (1, 2, 4 or 8); a compact short, int or long read or a string read fails exactly when its own code fails |
| Codec.Encode | src/com/esotericsoftware/kryo2/BufferTest.java:710-739 | booleans take one byte, chars and fixed shorts two, fixed ints four, fixed longs eight |
| WriteBuffers.NewWriteBuffer | src/com/esotericsoftware/kryo2/BufferTest.java:12-13 | a fresh buffer holds nothing and its mark is 0 |
| WriteBuffers.WriteBytes | src/com/esotericsoftware/kryo2/BufferTest.java:12-24 | a write fails exactly when the result would exceed capacity; otherwise the positions it covers hold the new bytes, all other positions keep theirs, and the cursor ends after the write |
| WriteBuffers.WriteByte | src/com/esotericsoftware/kryo2/BufferTest.java:77-95 | one byte is written at the cursor under the same capacity rule as a block |
| WriteBuffers.WriteValue | src/com/esotericsoftware/kryo2/BufferTest.java:186-227 | a typed write reports the number of bytes it used, which is the length of the value's encoding |
| WriteBuffers.PositionToMark | src/com/esotericsoftware/kryo2/BufferTest.java:57-68 | repositioning succeeds exactly for marks within the held data; it moves the cursor to the mark and changes no byte |
| WriteBuffers.Flush | src/com/esotericsoftware/kryo2/BufferTest.java:17-20 | flushing changes neither the bytes nor the mark |
| WriteBuffers.PopBytes | src/com/esotericsoftware/kryo2/BufferTest.java:41-47 | a popped block is one chunk, or all before the cursor if that is less; block plus remaining bytes equal the old contents; the mark is unchanged |
| WriteBuffers.PopAllCompleteness | src/com/esotericsoftware/kryo2/BufferTest.java:27-49 | popping until empty hands out exactly the bytes before the cursor in order, every block but the last a full chunk |
| WriteBuffers.PopAllAligned | src/com/esotericsoftware/kryo2/BufferTest.java:40-48 | with n whole chunks before the cursor, popping yields exactly n full chunks |
| WriteBuffers.FlattenAppend | src/com/esotericsoftware/kryo2/BufferTest.java:12-24 | the bytes of two runs of blocks are the bytes of the first run followed by those of the second |
| WriteBuffers.WriteBytesConcat | src/com/esotericsoftware/kryo2/BufferTest.java:77-95 | two successive writes leave the same buffer as one write of both blocks, so `writeByte` calls add up to `writeBytes` |
| WriteBuffers.WriteBytesAtEnd | src/com/esotericsoftware/kryo2/BufferTest.java:12-24 | a write at the end of the data that fits appends the bytes |
| WriteBuffers.PutsAppend | src/com/esotericsoftware/kryo2/BufferTest.java:12-24 | blocks written one after another are held in call order, whatever the chunk size, as long as they fit |
| WriteBuffers.WriteAllAtEnd | src/com/esotericsoftware/kryo2/BufferTest.java:166-184 | typed writes that fit append their encodings back to back |
| WriteBuffers.RunIgnoresChunking | src/com/esotericsoftware/kryo2/BufferTest.java:51-55 | any sequence of writes and repositionings that succeeds under a bounded configuration succeeds, with the same bytes and cursor, under an unbounded one of any chunk size |
| WriteBuffers.WriteBytesInside | src/com/esotericsoftware/kryo2/BufferTest.java:63-66 | a write that ends inside the data replaces exactly its span |
| WriteBuffers.OverwriteFront | src/com/esotericsoftware/kryo2/BufferTest.java:58-66 | writing B, going back to the mark before it and writing a shorter C leaves C followed by the rest of B |
| WriteBuffers.Backpatch | src/com/esotericsoftware/kryo2/BufferTest.java:57-75 | write B, rewrite its front with C via the start mark, jump to the end mark, write D: the bytes are the old data, C, the rest of B, D |
| WriteBuffers.Puts | src/com/esotericsoftware/kryo2/BufferTest.java:13-16 | the write calls for a list of blocks are one `writeBytes` per block, in order |
| ReadBuffers.NewReadBuffer | src/com/esotericsoftware/kryo2/BufferTest.java:153 | a read buffer over given bytes has all of them left to read, from mark 0 |
| ReadBuffers.ReadBytes | src/com/esotericsoftware/kryo2/BufferTest.java:119-133 | a read of n bytes succeeds exactly when n remain; the bytes read followed by those left are the bytes that were left before |
| ReadBuffers.ReadByte | src/com/esotericsoftware/kryo2/BufferTest.java:119-133 | a byte read succeeds exactly when one remains; it returns the byte at the position and moves one on |
| ReadBuffers.PositionToMark | src/com/esotericsoftware/kryo2/BufferTest.java:122-130 | a read buffer moves back or forward to any mark within the source, and refuses one beyond it |
| ReadBuffers.ReadValue | src/com/esotericsoftware/kryo2/BufferTest.java:229-293 | a typed read returns a value of the asked-for kind and always moves forward |
| ReadBuffers.CanReadInt | src/com/esotericsoftware/kryo2/BufferTest.java:249-294 | the peek is true exactly when a compact int read would succeed, in either mode, and false once the input is exhausted |
| ReadBuffers.ReadValueOfEncode | src/com/esotericsoftware/kryo2/BufferTest.java:229-248 | a value's encoding read with its writer's kind yields the value and leaves exactly what followed |
| ReadBuffers.ReadValueOfDecode | src/com/esotericsoftware/kryo2/BufferTest.java:229-248 | a successful decode of the remaining bytes is what a typed read returns, and the position moves by the bytes consumed |
| ReadBuffers.ReadAllFirst | src/com/esotericsoftware/kryo2/BufferTest.java:229-233 | the first value of a run of encodings reads back, leaving the rest of the run next |
| ReadBuffers.ReadAllOfEncodeAll | src/com/esotericsoftware/kryo2/BufferTest.java:229-293 | values written back to back read back in order with the writers' kinds, leaving exactly what followed |
| BufferExamples.GrowBuffers | src/com/esotericsoftware/kryo2/BufferTest.java:12-24 | four writes into 4-byte chunks, at most 16 of them, leave exactly the 45 bytes in order |
| BufferExamples.PopBuffers | src/com/esotericsoftware/kryo2/BufferTest.java:27-49 | 44 bytes written into 4-byte chunks pop as 11 blocks of 4 whose concatenation is the written sequence |
| BufferExamples.WriteMarks | src/com/esotericsoftware/kryo2/BufferTest.java:57-75 | the backpatch test leaves A, C, the last 8 bytes of B, then D, under every configuration with room for 45 bytes |
| BufferExamples.WriteMarksConfigs | src/com/esotericsoftware/kryo2/BufferTest.java:51-55 | the test's three configurations all have room for the 45 bytes |
| BufferExamples.WriteBytesAndBytes | src/com/esotericsoftware/kryo2/BufferTest.java:77-95 | single-byte writes mixed with block writes leave the same 45 bytes as the block writes |
| BufferExamples.ReadRun | src/com/esotericsoftware/kryo2/BufferTest.java:119-121 | n successive byte reads return the next n bytes in order and move the mark by n |
| BufferExamples.ReadMarks | src/com/esotericsoftware/kryo2/BufferTest.java:103-136 | over any nine bytes, the rewind re-reads the two bytes after the first mark and the jump resumes after the second |
| BufferExamples.ReadMarksBytes | src/com/esotericsoftware/kryo2/BufferTest.java:132-135 | over 11, 22, ..., 99 the bytes read are 11, 22, 33, 44, 55, 66, 44, 55, 77, 88, 99 |
| BufferExamples.CompactLengthIs | src/com/esotericsoftware/kryo2/BufferTest.java:186-227 | a compact value takes exactly n bytes when it is inside its mode's n-byte range and outside the (n-1)-byte range |
| BufferExamples.IntLengths1 | src/com/esotericsoftware/kryo2/BufferTest.java:186-199 | the byte counts the int test asserts for 0 through 8192 |
| BufferExamples.IntLengths2 | src/com/esotericsoftware/kryo2/BufferTest.java:200-213 | the byte counts the int test asserts for 16383 through 134217728 |
| BufferExamples.IntLengths3 | src/com/esotericsoftware/kryo2/BufferTest.java:214-227 | the byte counts the int test asserts for 268435456 and for the negative values, which take 5 bytes each with optimizePositive |
| BufferExamples.LongLengths1 | src/com/esotericsoftware/kryo2/BufferTest.java:322-335 | the byte counts the long test asserts for 0 through 8192 |
| BufferExamples.LongLengths2 | src/com/esotericsoftware/kryo2/BufferTest.java:336-349 | the byte counts the long test asserts for 16383 through 134217728 |
| BufferExamples.LongLengths3 | src/com/esotericsoftware/kryo2/BufferTest.java:350-363 | the byte counts the long test asserts for 268435456 and for the negative values, which take 10 bytes each with optimizePositive |
| BufferExamples.ShortLengths | src/com/esotericsoftware/kryo2/BufferTest.java:450-475 | the byte counts the short test asserts: one byte for 0..127 in both modes and for 128 with optimizePositive, -64 and -65 one byte without it and three with it, three for every other value asserted |
| BufferExamples.WriteThenRead | src/com/esotericsoftware/kryo2/BufferTest.java:143-159 | values written to a fresh buffer that has room read back in order from its bytes, nothing is left, and `canReadInt` is false |
| BufferExamples.SmallChunksHold | src/com/esotericsoftware/kryo2/BufferTest.java:161-164 | 200 chunks of 2 bytes hold any values of at most k bytes each that number at most 400 / k |
| Registry.Inc16 | src/com/esotericsoftware/kryo/Kryo.java:114 | the Java short increment moves every id but the sentinel one place along the allocation order, 32767 on to -32768 included; the sentinel steps to 1 |
| Registry.Ord | src/com/esotericsoftware/kryo/Kryo.java:39 | every short id has a rank 1..65536 along the counter's order of issue, and the rank 65536 belongs to 0, the sentinel, alone |
| Registry.RegisterAt | src/com/esotericsoftware/kryo/Kryo.java:79-84 | the private register files one entry under its class and its id, and leaves every other entry and the counter alone |
| Registry.BuiltInAt | src/com/esotericsoftware/kryo/Kryo.java:58-76 | the class in place i of the constructor is built in and gets id i + 1 |
| Registry.BuiltInId | src/com/esotericsoftware/kryo/Kryo.java:58-76 | a built-in class's id lies in 1..17 |
| Registry.NewKryo | src/com/esotericsoftware/kryo/Kryo.java:56-77 | the constructed registry satisfies the invariant: both maps agree and every id in use precedes the counter |
| Registry.NewKryoIds | src/com/esotericsoftware/kryo/Kryo.java:56-77 | the constructor files exactly the 17 built-ins under ids 1..17 in declaration order and leaves the counter at 18; only the primitive types' serializers refuse null |
| Registry.BuiltInsFrom | src/com/esotericsoftware/kryo/Kryo.java:58-76 | registering the remaining built-ins in order completes the constructor's state |
| Registry.RegisterAsWritten | src/com/esotericsoftware/kryo/Kryo.java:102-115 | register refuses a null type, a null serializer and one owned by another instance; a registered class keeps its id and the counter; a new class takes the counter's id and the counter steps; in both maps an entry naming the registered class and its serializer is filed under that id and every other entry is unchanged |
| Registry.Register | src/com/esotericsoftware/kryo/Kryo.java:102-115 | the corrected registration: exactly as written, success included, except that a new class is refused once the counter stands on the sentinel 0 |
| Registry.AutoSerializer | src/com/esotericsoftware/kryo/Kryo.java:167-182 | the serializer for `register(Class)` is chosen by the priority array, custom, collection, map, enum, field, each exactly when no earlier one applies |
| Registry.RegisterAutoAsWritten | src/com/esotericsoftware/kryo/Kryo.java:167-184 | `register(Class)` as written refuses null only, and otherwise registers, as written, with the serializer the traits select |
| Registry.RegisterAuto | src/com/esotericsoftware/kryo/Kryo.java:167-184 | `register(Class)` on the corrected registration: the same as written, except that a new class is refused once the counter stands on the sentinel 0 |
| Registry.GetRegisteredClass | src/com/esotericsoftware/kryo/Kryo.java:186-203 | lookup by class returns the class's entry; an unregistered proxy class is looked up as `InvocationHandler`; otherwise an unregistered class fails |
| Registry.GetRegisteredClassById | src/com/esotericsoftware/kryo/Kryo.java:205-209 | lookup by id succeeds exactly for ids in use and returns that id's entry |
| Registry.WriteClass | src/com/esotericsoftware/kryo/Kryo.java:216-221 | `writeClass` writes the entry's id as a positive-optimised compact short, and fails exactly when the lookup fails |
| Registry.ReadClass | src/com/esotericsoftware/kryo/Kryo.java:228-238 | `readClass` reads 0 as null and an id in use as its entry, and refuses an unknown id |
| Registry.WriteClassAndObject | src/com/esotericsoftware/kryo/Kryo.java:245-258 | null is the single byte 0; any other object is its class id followed by its serializer's bytes |
| Registry.WriteObject | src/com/esotericsoftware/kryo/Kryo.java:263-274 | null is the single byte 0; any other object is its serializer's bytes alone |
| Registry.FreshRegistrationConsistent | src/com/esotericsoftware/kryo/Kryo.java:113-115 | a new class under the counter's id keeps the invariant while the counter is not on 0 |
| Registry.ReRegistrationConsistent | src/com/esotericsoftware/kryo/Kryo.java:109-115 | re-registering a class under its existing id keeps the invariant |
| Registry.RegisterConsistent | src/com/esotericsoftware/kryo/Kryo.java:102-115 | every successful registration keeps the invariant; a registered class keeps its id and the counter, a new one takes the counter's id and the counter moves one place |
| Registry.LookupsAgree | src/com/esotericsoftware/kryo/Kryo.java:186-209 | looking a class up, then its id, gives the same entry, and that id is never the sentinel |
| Registry.ReadClassOfWriteClass | src/com/esotericsoftware/kryo/Kryo.java:216-238 | `readClass` returns the entry `writeClass` wrote, consuming exactly its bytes |
| Registry.WriteClassRefusesNull | src/com/esotericsoftware/kryo/Kryo.java:216-217 | as written, `writeClass` refuses a null class, because the lookup it starts with refuses null |
| Registry.WriteClassOrNull | src/com/esotericsoftware/kryo/Kryo.java:211-221 | `writeClass` as its documentation describes it: a null class is the single byte 0, the null-object id; any other class is written as before and fails exactly when its lookup fails |
| Registry.ReadClassOfWriteClassOrNull | src/com/esotericsoftware/kryo/Kryo.java:211-238 | `readClass` reads a null class written that way as null, and any other class as its entry, consuming exactly the bytes written |
| Registry.NullSentinel | src/com/esotericsoftware/kryo/Kryo.java:228-249 | a null object reads back as null from one byte; a non-null object reads back as its own class's entry, with its serializer's bytes next |
| Registry.CounterAdvances | src/com/esotericsoftware/kryo/Kryo.java:113-114 | each new class moves the counter exactly one place along the allocation order |
| Registry.CounterReachesSentinel | src/com/esotericsoftware/kryo/Kryo.java:113-114 | after the built-ins, 65518 more new classes bring the counter onto 0 |
| Registry.SentinelAssignedAsWritten | src/com/esotericsoftware/kryo/Kryo.java:113-114 | as written, the class registered with the counter on 0 is written as the byte 0 and read back as null |
| Registry.SentinelAfterRegistrations | src/com/esotericsoftware/kryo/Kryo.java:109-114 | from a new registry, 65518 distinct new classes and then one more: as written, the last is written as the byte 0 and read back as null; the corrected registration refuses it |
| Registry.SentinelRefused | src/com/esotericsoftware/kryo/Kryo.java:113-114 | the corrected registration refuses that class instead |
| Enums.NewEnumSerializer | src/com/esotericsoftware/kryo/serialize/EnumSerializer.java:18-21 | the constructor fails exactly for a class without enum constants, and otherwise keeps the constants |
| Enums.Put | src/com/esotericsoftware/kryo/serialize/EnumSerializer.java:37-39 | an ordinal takes 1 to 5 bytes; 1 to 3 exactly for ordinals below 128^3, 1 exactly below 128 |
| Enums.WriteObjectData | src/com/esotericsoftware/kryo/serialize/EnumSerializer.java:32-35 | a constant is written by `put` and reads back as itself |
| Enums.ReadObjectData | src/com/esotericsoftware/kryo/serialize/EnumSerializer.java:23-30 | a read fails as the compact int read fails; it is refused as an invalid ordinal exactly when the ordinal is negative or past the last constant; otherwise it returns the constant at that index |
| Enums.Get | src/com/esotericsoftware/kryo/serialize/EnumSerializer.java:41-48 | `get` refuses a non-enum class and otherwise reads exactly as `readObjectData` |
| Enums.ReadOfPut | src/com/esotericsoftware/kryo/serialize/EnumSerializer.java:23-39 | a constant written by `put` reads back as itself, consuming exactly its bytes |
| Enums.ReadOfCompactInt | src/com/esotericsoftware/kryo/serialize/EnumSerializer.java:23-27 | any compact int in an ordinal's place reads back as a constant exactly when it is a valid index, and is refused otherwise, negatives included |
| Enums.RoundTrip | src/com/esotericsoftware/kryo/serialize/EnumSerializer.java:18-48 | a serializer built for an enum writes every constant so that both `readObjectData` and `get` read it back |

## Left out

- Floats and doubles, fixed and scaled, are floating point and are not modelled (`BufferTest.java` 521-703, `DoubleSerializer.java`).
- `CharSerializer.java` and `String7Serializer.java` are thin wrappers over code that is not part of this model.
- The source of `WriteBuffer` and `ReadBuffer` is not shown. Their contract is taken from the tests' assertions.
  - The chunk chain, its growth and the read-side refill from an input stream are abstracted away.
  - A write buffer is configured by chunk size and an optional maximum chunk count. The core-buffer count of the three-argument constructor has no observable effect in the tests and is ignored.
  - A maximum count of -1 (or none) means unbounded.
  - The read buffer's source is fixed and complete, so the three read configurations of the read-marks test do not appear.
- The byte layout of strings is not shown. Strings are modelled by a layout of our own, and only round trips and the absence of separators are claimed. A null string is not modelled.
- Kryo 1's `IntSerializer` and `ShortSerializer` are not part of this model. The compact int and short codecs of the buffer tests stand in for `IntSerializer.put/get(buffer, value, true)` and `ShortSerializer.put/get(buffer, value, true)`.
- `ByteBuffer` overflow in `writeClass`, `writeClassAndObject`, `writeObject` and `put` is not modelled. These write to an unbounded byte sequence.
- Listeners (`Kryo.java` 337-379), the thread-local context (50-54, 333-335) and trace logging are left out. They are concurrency and I/O with no effect on the registry's maps.
- `writeObjectData`, `readObject`, `readObjectData` and `readClassAndObject` of `Kryo.java` are left out. They dispatch to serializers that are not part of this model. An object is modelled as its class and the bytes its serializer writes (`Object.data`). Those bytes are given, not computed by the registered serializer, and a failing `writeObjectData` is not modelled.
- Reflection is replaced by inputs:
  - a class's traits (array, custom, collection, map, enum, proxy);
  - an enum's constants as an optional sequence, `None` for a class that is not an enum.
- Serializer identity is modelled by kind and owning instance. The shared serializer instances of `register(Class)` are owned by the registry that hands them out.
- The `serializer.kryo = this` and `context = null` side effects are modelled only through the ownership check.
- `getRegisteredClass` and `writeClass` with a null class, and the array-class message text, are modelled as the error kinds `NullType` and `UnregisteredClass`. The null case of `writeClass` is a finding below.
- Registry.RegisterAuto: models `register(Class)` on the corrected registration, so at the counter's wrap it refuses the class where the code as written files it under id 0. `Registry.RegisterAutoAsWritten` is the code as written.
- `new EnumSerializer()` in `Kryo.java` line 46 has no matching constructor in `EnumSerializer.java`. The model's `AutoSerializer` picks the enum serializer kind and does not construct one.
- Enums.Put: ordinals above 2^31 - 1 are excluded by precondition, because Java ordinals are `int`s.

## Findings

| source | as written | input that shows it | evidently intended | confidence | as-written member | corrected member |
|---|---|---|---|---|---|---|
| src/com/esotericsoftware/kryo/Kryo.java:114 | `id = nextClassID++` on a `short` counter, with no check | the 17 built-ins, then 65518 distinct new classes: the counter wraps through -32768..-1 onto 0, and the next new class gets id 0, the null sentinel, so it is written as the byte 0 and read back as null | refuse a new class once every id other than the sentinel is in use | not executed | Registry.SentinelAfterRegistrations | Registry.SentinelRefused |
| src/com/esotericsoftware/kryo/Kryo.java:211-217 | `writeClass` starts with `getRegisteredClass(type)`, which throws for a null type | `writeClass(buffer, null)` on any registry | its documentation says the type can be null and then the null-object id is written | not executed | Registry.WriteClassRefusesNull | Registry.WriteClassOrNull |
