/**
 The class registry of a Kryo instance: two finite maps, class to entry and
 16-bit id to entry, and the `nextClassID` counter that hands out ids in
 registration order. Id 0 is the sentinel a reader takes for a null object.

 Reflection is replaced by data: a class carries the flags the registry asks
 about (array, custom serialization, collection, map, enum, proxy), and an
 obj carries the bytes its registered serializer writes for it.
 */
module Registry {
  import opened Results
  import opened Bytes
  import opened Codec

  // ---------------------------------------------------------------------
  // Classes, serializers, entries
  // ---------------------------------------------------------------------

  /** The eight Java primitive types. */
  datatype Primitive = Boolean | Byte | Char | Short | Int | Long | Float | Double

  /** What `Class.isArray`, `isAssignableFrom` and `Proxy.isProxyClass` would report. */
  datatype Traits = Traits(
    isArray: bool,
    isCustom: bool,
    isCollection: bool,
    isMap: bool,
    isEnum: bool,
    isProxy: bool)

  const PLAIN: Traits := Traits(false, false, false, false, false, false)

  datatype Class =
    | PrimitiveClass(p: Primitive)
    | WrapperClass(p: Primitive)
    | StringClass
    | InvocationHandlerClass
    | UserClass(name: string, traits: Traits)
  {
    function Traits(): Traits {
      if UserClass? then traits else PLAIN
    }
  }

  datatype SerializerKind =
    | PrimitiveSerializer(p: Primitive)
    | StringSerializer
    | ArraySerializer
    | CustomSerializer
    | CollectionSerializer
    | MapSerializer
    | EnumSerializer
    | FieldSerializer
    | UserSerializer(tag: nat)

  /** A serializer and the instance (by number) it was registered with, if any. */
  datatype Serializer = Serializer(kind: SerializerKind, owner: Option<nat>, canBeNull: bool)

  datatype RegisteredClass = RegisteredClass(cls: Class, id: int16, serializer: Serializer)

  /** `self` stands for the instance's identity, which the ownership check compares. */
  datatype Kryo = Kryo(
    self: nat,
    byId: map<int16, RegisteredClass>,
    byClass: map<Class, RegisteredClass>,
    nextClassID: int16)

  /** An object to serialize: its class, and the bytes its class's serializer writes for it. */
  datatype Object = Object(cls: Class, data: seq<byte>)

  /** The byte written in place of a null object. */
  const ID_NULL_OBJECT: int16 := 0

  // ---------------------------------------------------------------------
  // The id counter
  // ---------------------------------------------------------------------

  /**
   Java's `short` increment, which wraps 32767 round to -32768: every id
   but the sentinel steps one place along the allocation order `Ord`, and
   the sentinel steps to 1.
   */
  function Inc16(x: int16): (y: int16)
    ensures x != 0 ==> Ord(y) == Ord(x) + 1
    ensures x == 0 ==> Ord(y) == 1
  {
    if x == 0x7FFF then -0x8000 else x + 1
  }

  /**
   The position of an id in allocation order starting from 1: 1..32767
   first, then -32768..-1, and last the sentinel 0, reached after every
   other id has been handed out.
   */
  function Ord(id: int16): (n: nat)
    ensures 1 <= n <= 0x1_0000
    ensures n == 0x1_0000 <==> id == 0
  {
    if id >= 1 then id else id + 0x1_0000
  }

  lemma OrdInjective(a: int16, b: int16)
    ensures Ord(a) == Ord(b) <==> a == b
  {
  }

  // ---------------------------------------------------------------------
  // The invariant
  // ---------------------------------------------------------------------

  /**
   The two maps describe the same entries, each filed under its own class
   and its own id, and every id in use lies before the counter in
   allocation order (so the counter's id is free, and 0 is never in use).
   */
  predicate Consistent(k: Kryo) {
    && (forall c | c in k.byClass ::
          k.byClass[c].cls == c && k.byClass[c].id in k.byId && k.byId[k.byClass[c].id] == k.byClass[c])
    && (forall id | id in k.byId ::
          k.byId[id].id == id && k.byId[id].cls in k.byClass && k.byClass[k.byId[id].cls] == k.byId[id])
    && (forall id | id in k.byId :: Ord(id) < Ord(k.nextClassID))
  }

  // ---------------------------------------------------------------------
  // Construction and registration
  // ---------------------------------------------------------------------

  /** The private `register(Class, short, Serializer)`: files one entry under both keys. */
  function RegisterAt(k: Kryo, cls: Class, id: int16, serializer: Serializer): (k': Kryo)
    ensures k'.self == k.self && k'.nextClassID == k.nextClassID
    ensures k'.byClass.Keys == k.byClass.Keys + {cls} && k'.byId.Keys == k.byId.Keys + {id}
    ensures k'.byClass[cls] == RegisteredClass(cls, id, serializer) == k'.byId[id]
    ensures forall c | c in k.byClass && c != cls :: k'.byClass[c] == k.byClass[c]
    ensures forall i | i in k.byId && i != id :: k'.byId[i] == k.byId[i]
  {
    var entry := RegisteredClass(cls, id, serializer);
    k.(byId := k.byId[id := entry], byClass := k.byClass[cls := entry])
  }

  const BUILT_IN_COUNT: nat := 17

  /** The primitive types in the constructor's order. */
  function PrimitiveAt(i: nat): (p: Primitive)
    requires i < 8
    ensures PrimitiveIndex(p) == i
  {
    if i == 0 then Boolean else if i == 1 then Byte else if i == 2 then Char
    else if i == 3 then Short else if i == 4 then Int else if i == 5 then Long
    else if i == 6 then Float else Double
  }

  function PrimitiveIndex(p: Primitive): (i: nat)
    ensures i < 8
  {
    match p
    case Boolean => 0 case Byte => 1 case Char => 2 case Short => 3
    case Int => 4 case Long => 5 case Float => 6 case Double => 7
  }

  /**
   The built-in class the constructor registers in place `i`: the eight
   primitive types, then their eight wrappers, then `String`.
   */
  function BuiltInAt(i: nat): (c: Class)
    requires i < BUILT_IN_COUNT
    ensures IsBuiltIn(c) && BuiltInId(c) == i + 1
  {
    if i < 8 then PrimitiveClass(PrimitiveAt(i))
    else if i < 16 then WrapperClass(PrimitiveAt(i - 8))
    else StringClass
  }

  /** Each built-in class is in exactly one place, the one its id names. */
  lemma BuiltInAtOfId(c: Class)
    requires IsBuiltIn(c)
    ensures BuiltInAt(BuiltInId(c) as nat - 1) == c
  {
    match c
    case PrimitiveClass(p) => PrimitiveAtOfIndex(p);
    case WrapperClass(p) => PrimitiveAtOfIndex(p);
    case _ =>
  }

  lemma PrimitiveAtOfIndex(p: Primitive)
    ensures PrimitiveAt(PrimitiveIndex(p)) == p
  {
  }

  predicate IsBuiltIn(c: Class) {
    c.PrimitiveClass? || c.WrapperClass? || c.StringClass?
  }

  /** The id the constructor gives a built-in class: one more than its place. */
  function BuiltInId(c: Class): (id: int16)
    requires IsBuiltIn(c)
    ensures 1 <= id <= BUILT_IN_COUNT
  {
    match c
    case PrimitiveClass(p) => PrimitiveIndex(p) as int16 + 1
    case WrapperClass(p) => PrimitiveIndex(p) as int16 + 9
    case _ => 17
  }

  /**
   The fresh serializer the constructor pairs with a built-in class: the
   primitive's own serializer for primitives and wrappers, which may not be
   null for the primitive types, and the string serializer for `String`.
   */
  function BuiltInSerializer(c: Class): Serializer {
    match c
    case PrimitiveClass(p) => Serializer(PrimitiveSerializer(p), None, false)
    case WrapperClass(p) => Serializer(PrimitiveSerializer(p), None, true)
    case _ => Serializer(StringSerializer, None, true)
  }

  /** Registers the built-ins from place `i` on, in order, each under the counter's id, stepping the counter. */
  function RegisterBuiltIns(k: Kryo, i: nat): Kryo
    requires i <= BUILT_IN_COUNT
    decreases BUILT_IN_COUNT - i
  {
    if i == BUILT_IN_COUNT then k
    else
      var c := BuiltInAt(i);
      var k' := RegisterAt(k, c, k.nextClassID, BuiltInSerializer(c));
      RegisterBuiltIns(k'.(nextClassID := Inc16(k.nextClassID)), i + 1)
  }

  /** An empty registry with the counter at 1. */
  function Empty(self: nat): Kryo {
    Kryo(self, map[], map[], 1)
  }

  /** The constructor: the 17 built-in classes under ids 1..17, the counter at 18. */
  function NewKryo(self: nat): (k: Kryo)
    ensures k.self == self && Consistent(k) && BuiltInsUpTo(k, BUILT_IN_COUNT)
  {
    BuiltInsFrom(Empty(self), 0);
    RegisterBuiltIns(Empty(self), 0)
  }

  /**
   The constructor's state once the built-ins before place `i` are
   registered: exactly those classes, each under its own id with its own
   serializer, exactly the ids 1..i, and the counter at i + 1.
   */
  ghost predicate BuiltInsUpTo(k: Kryo, i: nat) {
    && Consistent(k)
    && k.nextClassID == i + 1
    && (forall c :: c in k.byClass <==> IsBuiltIn(c) && BuiltInId(c) <= i)
    && (forall c | c in k.byClass :: k.byClass[c] == RegisteredClass(c, BuiltInId(c), BuiltInSerializer(c)))
    && (forall id: int16 :: id in k.byId <==> 1 <= id <= i)
  }

  /** Registering the remaining built-ins completes the constructor's state. */
  lemma {:induction false} BuiltInsFrom(k: Kryo, i: nat)
    requires i <= BUILT_IN_COUNT && BuiltInsUpTo(k, i)
    ensures BuiltInsUpTo(RegisterBuiltIns(k, i), BUILT_IN_COUNT)
    ensures RegisterBuiltIns(k, i).self == k.self
    decreases BUILT_IN_COUNT - i
  {
    if i < BUILT_IN_COUNT {
      var c := BuiltInAt(i);
      var k2 := RegisterAt(k, c, k.nextClassID, BuiltInSerializer(c)).(nextClassID := Inc16(k.nextClassID));
      BuiltInStep(k, i);
      BuiltInsFrom(k2, i + 1);
    }
  }

  /** One constructor step: the built-in in place `i` joins under id i + 1. */
  lemma BuiltInStep(k: Kryo, i: nat)
    requires i < BUILT_IN_COUNT && BuiltInsUpTo(k, i)
    ensures BuiltInsUpTo(RegisterAt(k, BuiltInAt(i), k.nextClassID, BuiltInSerializer(BuiltInAt(i)))
                           .(nextClassID := Inc16(k.nextClassID)), i + 1)
  {
    var c := BuiltInAt(i);
    var k2 := RegisterAt(k, c, k.nextClassID, BuiltInSerializer(c)).(nextClassID := Inc16(k.nextClassID));
    FreshRegistrationConsistent(k, c, BuiltInSerializer(c));
    forall d
      ensures d in k2.byClass <==> IsBuiltIn(d) && BuiltInId(d) <= i + 1
    {
      if IsBuiltIn(d) && BuiltInId(d) == i + 1 {
        BuiltInAtOfId(d);
      }
    }
    forall d | d in k2.byClass
      ensures k2.byClass[d] == RegisteredClass(d, BuiltInId(d), BuiltInSerializer(d))
    {
    }
  }

  /**
   `register(type, serializer)`: refuses a null class, a null serializer and
   a serializer owned by another instance; a class registered before keeps
   its id and takes the new serializer; a new class takes the counter's id
   and the counter steps on.

   This is the code as written, where the counter may step onto the null
   sentinel; `Register` below is the corrected form.
   */
  function RegisterAsWritten(k: Kryo, cls: Option<Class>, serializer: Option<Serializer>): (r: Result<Kryo>)
    ensures cls.None? ==> r == Err(NullType)
    ensures cls.Some? && serializer.None? ==> r == Err(NullSerializer)
    ensures r.Err? <==> cls.None? || serializer.None?
                         || (serializer.value.owner.Some? && serializer.value.owner.value != k.self)
    ensures r.Err? && cls.Some? && serializer.Some? ==> r.error == ForeignSerializer
    ensures r.Ok? ==> r.value.self == k.self
    ensures r.Ok? ==> && r.value.byClass.Keys == k.byClass.Keys + {cls.value}
                      && r.value.byClass[cls.value].cls == cls.value
                      && r.value.byClass[cls.value].serializer == serializer.value.(owner := Some(k.self))
                      && (forall c | c in k.byClass && c != cls.value :: r.value.byClass[c] == k.byClass[c])
    ensures r.Ok? && cls.value in k.byClass ==>
              r.value.byClass[cls.value].id == k.byClass[cls.value].id && r.value.nextClassID == k.nextClassID
    ensures r.Ok? && cls.value !in k.byClass ==>
              r.value.byClass[cls.value].id == k.nextClassID && r.value.nextClassID == Inc16(k.nextClassID)
    ensures r.Ok? ==> var id := r.value.byClass[cls.value].id;
                      && r.value.byId.Keys == k.byId.Keys + {id}
                      && r.value.byId[id] == r.value.byClass[cls.value]
                      && (forall i | i in k.byId && i != id :: r.value.byId[i] == k.byId[i])
  {
    if cls.None? then Err(NullType)
    else if serializer.None? then Err(NullSerializer)
    else if serializer.value.owner.Some? && serializer.value.owner.value != k.self then Err(ForeignSerializer)
    else
      var s := serializer.value.(owner := Some(k.self));
      var c := cls.value;
      if c in k.byClass then Ok(RegisterAt(k, c, k.byClass[c].id, s))
      else Ok(RegisterAt(k, c, k.nextClassID, s).(nextClassID := Inc16(k.nextClassID)))
  }

  /**
   The corrected `register(type, serializer)`: as written, except that a new
   class is refused once every id other than the null sentinel is in use.
   */
  function Register(k: Kryo, cls: Option<Class>, serializer: Option<Serializer>): (r: Result<Kryo>)
    ensures r.Err? && r.error == ClassIdsExhausted <==>
              RegisterAsWritten(k, cls, serializer).Ok? && cls.value !in k.byClass && k.nextClassID == 0
    ensures r.Ok? ==> r == RegisterAsWritten(k, cls, serializer)
    ensures !(cls.Some? && cls.value !in k.byClass && k.nextClassID == 0) ==> r == RegisterAsWritten(k, cls, serializer)
    ensures RegisterAsWritten(k, cls, serializer).Err? ==> r == RegisterAsWritten(k, cls, serializer)
  {
    if cls.Some? && serializer.Some? && cls.value !in k.byClass && k.nextClassID == 0
       && RegisterAsWritten(k, cls, serializer).Ok?
    then Err(ClassIdsExhausted)
    else RegisterAsWritten(k, cls, serializer)
  }

  /** The serializer a registration without one gets, by fixed priority. */
  function AutoSerializer(k: Kryo, t: Traits): (s: Serializer)
    ensures s.owner == Some(k.self)
    ensures s.kind == ArraySerializer <==> t.isArray
    ensures s.kind == CustomSerializer <==> !t.isArray && t.isCustom
    ensures s.kind == CollectionSerializer <==> !t.isArray && !t.isCustom && t.isCollection
    ensures s.kind == MapSerializer <==> !t.isArray && !t.isCustom && !t.isCollection && t.isMap
    ensures s.kind == EnumSerializer
        <==> !t.isArray && !t.isCustom && !t.isCollection && !t.isMap && t.isEnum
    ensures s.kind == FieldSerializer
        <==> !t.isArray && !t.isCustom && !t.isCollection && !t.isMap && !t.isEnum
  {
    var kind :=
      if t.isArray then ArraySerializer
      else if t.isCustom then CustomSerializer
      else if t.isCollection then CollectionSerializer
      else if t.isMap then MapSerializer
      else if t.isEnum then EnumSerializer
      else FieldSerializer;
    Serializer(kind, Some(k.self), true)
  }

  /**
   `register(type)` as written: registration with the serializer the class's
   traits select. The chosen serializer belongs to this instance, so only a
   null class is refused.
   */
  function RegisterAutoAsWritten(k: Kryo, cls: Option<Class>): (r: Result<Kryo>)
    ensures r.Err? <==> cls.None?
    ensures cls.None? ==> r == Err(NullType)
    ensures cls.Some? ==> r == RegisterAsWritten(k, cls, Some(AutoSerializer(k, cls.value.Traits())))
    ensures r.Ok? ==> r.value.byClass[cls.value].serializer == AutoSerializer(k, cls.value.Traits())
  {
    if cls.None? then Err(NullType)
    else RegisterAsWritten(k, cls, Some(AutoSerializer(k, cls.value.Traits())))
  }

  /**
   `register(type)` built on the corrected registration: the same as written,
   except that a new class is refused once the counter stands on the sentinel.
   */
  function RegisterAuto(k: Kryo, cls: Option<Class>): (r: Result<Kryo>)
    ensures cls.None? ==> r == Err(NullType)
    ensures cls.Some? ==> r == Register(k, cls, Some(AutoSerializer(k, cls.value.Traits())))
    ensures cls.Some? && cls.value !in k.byClass && k.nextClassID == 0 ==> r == Err(ClassIdsExhausted)
    ensures !(cls.Some? && cls.value !in k.byClass && k.nextClassID == 0) ==> r == RegisterAutoAsWritten(k, cls)
  {
    if cls.None? then Err(NullType)
    else Register(k, cls, Some(AutoSerializer(k, cls.value.Traits())))
  }

  // ---------------------------------------------------------------------
  // Lookups
  // ---------------------------------------------------------------------

  /**
   `getRegisteredClass(Class)`: the class's entry; an unregistered proxy
   class is looked up as `InvocationHandler`.
   */
  function GetRegisteredClass(k: Kryo, cls: Option<Class>): (r: Result<RegisteredClass>)
    ensures cls.None? ==> r == Err(NullType)
    ensures cls.Some? && cls.value in k.byClass ==> r == Ok(k.byClass[cls.value])
    ensures (cls.Some? && cls.value !in k.byClass && cls.value.Traits().isProxy
             && InvocationHandlerClass in k.byClass) ==> r == Ok(k.byClass[InvocationHandlerClass])
    ensures r.Err? ==> r.error == NullType || r.error == UnregisteredClass
    ensures r.Ok? ==> r.value in k.byClass.Values
    ensures cls.Some? ==> (r.Err? <==> cls.value !in k.byClass
                                       && (!cls.value.Traits().isProxy || InvocationHandlerClass !in k.byClass))
  {
    if cls.None? then Err(NullType)
    else if cls.value in k.byClass then Ok(k.byClass[cls.value])
    else if cls.value.Traits().isProxy && InvocationHandlerClass in k.byClass then
      Ok(k.byClass[InvocationHandlerClass])
    else Err(UnregisteredClass)
  }

  /** `getRegisteredClass(short)`. */
  function GetRegisteredClassById(k: Kryo, id: int16): (r: Result<RegisteredClass>)
    ensures r.Ok? <==> id in k.byId
    ensures r.Ok? ==> r.value == k.byId[id]
    ensures r.Err? ==> r.error == UnregisteredClassId
  {
    if id in k.byId then Ok(k.byId[id]) else Err(UnregisteredClassId)
  }

  // ---------------------------------------------------------------------
  // Class ids on the wire
  // ---------------------------------------------------------------------

  /** `writeClass`: the class's entry and the bytes of its id as a positive-optimised compact short. */
  function WriteClass(k: Kryo, cls: Option<Class>): (r: Result<(RegisteredClass, seq<byte>)>)
    ensures r.Ok? <==> GetRegisteredClass(k, cls).Ok?
    ensures r.Ok? ==> r.value.0 == GetRegisteredClass(k, cls).value
    ensures r.Ok? ==> r.value.1 == EncodeCompactShort(r.value.0.id, true)
  {
    var entry :- GetRegisteredClass(k, cls);
    Ok((entry, EncodeCompactShort(entry.id, true)))
  }

  /**
   `readClass`: reads an id; the sentinel reads as null, an id never
   assigned is refused. Returns the entry (or null) and the bytes consumed.
   */
  function ReadClass(k: Kryo, bs: seq<byte>): (r: Result<(Option<RegisteredClass>, nat)>)
    ensures r.Ok? ==> 1 <= r.value.1 <= |bs|
    ensures r.Ok? && r.value.0.Some? ==> r.value.0.value in k.byId.Values
    ensures r.Err? && r.error == UnregisteredClassId <==>
              DecodeCompactShort(bs, true).Ok?
              && DecodeCompactShort(bs, true).value.0 != ID_NULL_OBJECT
              && DecodeCompactShort(bs, true).value.0 !in k.byId
    ensures DecodeCompactShort(bs, true).Err? ==> r.Err?
    ensures var d := DecodeCompactShort(bs, true);
            d.Ok? && d.value.0 == ID_NULL_OBJECT ==> r == Ok((None, d.value.1))
    ensures var d := DecodeCompactShort(bs, true);
            d.Ok? && d.value.0 != ID_NULL_OBJECT && d.value.0 in k.byId ==> r == Ok((Some(k.byId[d.value.0]), d.value.1))
  {
    var p :- DecodeCompactShort(bs, true);
    if p.0 == ID_NULL_OBJECT then Ok((None, p.1))
    else if p.0 in k.byId then Ok((Some(k.byId[p.0]), p.1))
    else Err(UnregisteredClassId)
  }

  /**
   `writeClassAndObject`: a null object is the single sentinel byte; any
   other object is its class id followed by its serializer's bytes.
   */
  function WriteClassAndObject(k: Kryo, obj: Option<Object>): (r: Result<seq<byte>>)
    ensures obj.None? ==> r == Ok([ID_NULL_OBJECT])
    ensures obj.Some? ==> (r.Ok? <==> GetRegisteredClass(k, Some(obj.value.cls)).Ok?)
    ensures obj.Some? && r.Ok? ==>
              r.value == WriteClass(k, Some(obj.value.cls)).value.1 + obj.value.data
  {
    if obj.None? then Ok([ID_NULL_OBJECT])
    else
      var written :- WriteClass(k, Some(obj.value.cls));
      Ok(written.1 + obj.value.data)
  }

  /** `writeObject`: the sentinel byte for null, otherwise the serializer's bytes alone. */
  function WriteObject(k: Kryo, obj: Option<Object>): (r: Result<seq<byte>>)
    ensures obj.None? ==> r == Ok([ID_NULL_OBJECT])
    ensures obj.Some? ==> (r.Ok? <==> GetRegisteredClass(k, Some(obj.value.cls)).Ok?)
    ensures obj.Some? && r.Ok? ==> r.value == obj.value.data
  {
    if obj.None? then Ok([ID_NULL_OBJECT])
    else
      var _ :- GetRegisteredClass(k, Some(obj.value.cls));
      Ok(obj.value.data)
  }

  // ---------------------------------------------------------------------
  // Properties
  // ---------------------------------------------------------------------

  /**
   The constructor files the 17 built-ins under ids 1..17 in declaration
   order, with serializers that may not be null exactly for the eight
   primitive types; no other id, and in particular not 0, is in use.
   */
  lemma NewKryoIds(self: nat)
    ensures NewKryo(self).nextClassID == 18
    ensures forall c :: c in NewKryo(self).byClass <==> IsBuiltIn(c)
    ensures forall id: int16 :: id in NewKryo(self).byId <==> 1 <= id <= 17
    ensures forall i | 0 <= i < BUILT_IN_COUNT :: NewKryo(self).byClass[BuiltInAt(i)].id == i + 1
    ensures forall c | c in NewKryo(self).byClass ::
              NewKryo(self).byClass[c].serializer.canBeNull == !c.PrimitiveClass?
  {
    var k := NewKryo(self);
    BuiltInsComplete(k);
  }

  /** What the constructor's final state says about each class and id. */
  lemma BuiltInsComplete(k: Kryo)
    requires BuiltInsUpTo(k, BUILT_IN_COUNT)
    ensures k.nextClassID == 18
    ensures forall c :: c in k.byClass <==> IsBuiltIn(c)
    ensures forall id: int16 :: id in k.byId <==> 1 <= id <= 17
    ensures forall i | 0 <= i < BUILT_IN_COUNT :: k.byClass[BuiltInAt(i)].id == i + 1
    ensures forall c | c in k.byClass :: k.byClass[c].serializer.canBeNull == !c.PrimitiveClass?
  {
    forall c | c in k.byClass
      ensures k.byClass[c].serializer.canBeNull == !c.PrimitiveClass?
    {
      assert k.byClass[c] == RegisteredClass(c, BuiltInId(c), BuiltInSerializer(c));
    }
  }

  /** A new class under the counter's id keeps the maps consistent, as long as the counter is not on 0. */
  lemma FreshRegistrationConsistent(k: Kryo, c: Class, s: Serializer)
    requires Consistent(k) && c !in k.byClass && k.nextClassID != 0
    ensures Consistent(RegisterAt(k, c, k.nextClassID, s).(nextClassID := Inc16(k.nextClassID)))
  {
    var id := k.nextClassID;
    assert id !in k.byId;
    var k' := RegisterAt(k, c, id, s).(nextClassID := Inc16(id));
    forall d | d in k'.byClass
      ensures k'.byClass[d].cls == d && k'.byClass[d].id in k'.byId && k'.byId[k'.byClass[d].id] == k'.byClass[d]
    {
      if d != c {
        assert k'.byClass[d] == k.byClass[d];
        assert k.byClass[d].id != id;
      }
    }
    forall i | i in k'.byId
      ensures k'.byId[i].id == i && k'.byId[i].cls in k'.byClass && k'.byClass[k'.byId[i].cls] == k'.byId[i]
      ensures Ord(i) < Ord(k'.nextClassID)
    {
      if i != id {
        assert k'.byId[i] == k.byId[i];
        assert k.byId[i].cls != c;
      }
    }
  }

  /** Replacing the serializer of a registered class keeps the maps consistent. */
  lemma ReRegistrationConsistent(k: Kryo, c: Class, s: Serializer)
    requires Consistent(k) && c in k.byClass
    ensures Consistent(RegisterAt(k, c, k.byClass[c].id, s))
  {
    var id := k.byClass[c].id;
    var k' := RegisterAt(k, c, id, s);
    forall d | d in k'.byClass
      ensures k'.byClass[d].cls == d && k'.byClass[d].id in k'.byId && k'.byId[k'.byClass[d].id] == k'.byClass[d]
    {
      if d != c {
        assert k.byClass[d].id != id;
      }
    }
    forall i | i in k'.byId
      ensures k'.byId[i].id == i && k'.byId[i].cls in k'.byClass && k'.byClass[k'.byId[i].cls] == k'.byId[i]
    {
      if i != id {
        assert k.byId[i].cls != c;
      }
    }
  }

  /**
   Every successful corrected registration keeps the maps consistent; a
   registered class keeps its id and the counter, a new class takes the
   counter's id and moves the counter one place on.
   */
  lemma RegisterConsistent(k: Kryo, cls: Option<Class>, serializer: Option<Serializer>)
    requires Consistent(k)
    ensures var r := Register(k, cls, serializer);
            r.Ok? ==> && Consistent(r.value)
                      && cls.value in r.value.byClass
                      && r.value.byClass[cls.value].serializer.kind == serializer.value.kind
                      && r.value.byClass.Keys == k.byClass.Keys + {cls.value}
    ensures var r := Register(k, cls, serializer);
            r.Ok? && cls.value in k.byClass ==>
              r.value.byClass[cls.value].id == k.byClass[cls.value].id
              && r.value.nextClassID == k.nextClassID
    ensures var r := Register(k, cls, serializer);
            r.Ok? && cls.value !in k.byClass ==>
              r.value.byClass[cls.value].id == k.nextClassID
              && Ord(r.value.nextClassID) == Ord(k.nextClassID) + 1
  {
    var r := Register(k, cls, serializer);
    if r.Ok? {
      var c := cls.value;
      var s := serializer.value.(owner := Some(k.self));
      if c in k.byClass {
        ReRegistrationConsistent(k, c, s);
      } else {
        FreshRegistrationConsistent(k, c, s);
      }
    }
  }

  /** Looking a class up, then looking its id up, gives the same entry, and that id is never the sentinel. */
  lemma LookupsAgree(k: Kryo, c: Class)
    requires Consistent(k) && c in k.byClass
    ensures GetRegisteredClass(k, Some(c)).Ok?
    ensures var e := GetRegisteredClass(k, Some(c)).value;
            e.cls == c && e.id != ID_NULL_OBJECT && GetRegisteredClassById(k, e.id) == Ok(e)
  {
  }

  /** `readClass` gives back the entry `writeClass` wrote, consuming exactly the id's bytes. */
  lemma ReadClassOfWriteClass(k: Kryo, cls: Option<Class>, rest: seq<byte>)
    requires Consistent(k) && WriteClass(k, cls).Ok?
    ensures var (e, bs) := WriteClass(k, cls).value;
            ReadClass(k, bs + rest) == Ok((Some(e), |bs|))
  {
    var (e, bs) := WriteClass(k, cls).value;
    DecodeCompactShortOfEncode(e.id, true, rest);
  }

  /**
   As written, `writeClass` refuses a null class: it looks the class up
   first, and the lookup refuses null. Its documentation promises the
   null-object id instead.
   */
  lemma WriteClassRefusesNull(k: Kryo)
    ensures WriteClass(k, None) == Err(NullType)
  {
  }

  /**
   `writeClass` as documented: a null class is written as the null-object
   id, the single byte 0; any other class is written as before.
   */
  function WriteClassOrNull(k: Kryo, cls: Option<Class>): (r: Result<seq<byte>>)
    ensures cls.None? ==> r == Ok([0])
    ensures cls.Some? ==> (r.Ok? <==> GetRegisteredClass(k, cls).Ok?)
    ensures cls.Some? && r.Ok? ==> r.value == WriteClass(k, cls).value.1
  {
    if cls.None? then
      assert EncodeCompactShort(ID_NULL_OBJECT, true) == [0];
      Ok(EncodeCompactShort(ID_NULL_OBJECT, true))
    else
      var (_, bs) :- WriteClass(k, cls);
      Ok(bs)
  }

  /** `readClass` reads a null class written as documented as null, and any other class as its entry. */
  lemma ReadClassOfWriteClassOrNull(k: Kryo, cls: Option<Class>, rest: seq<byte>)
    requires Consistent(k) && WriteClassOrNull(k, cls).Ok?
    ensures var bs := WriteClassOrNull(k, cls).value;
            && (cls.None? ==> ReadClass(k, bs + rest) == Ok((None, |bs|)))
            && (cls.Some? ==> ReadClass(k, bs + rest) == Ok((Some(GetRegisteredClass(k, cls).value), |bs|)))
  {
    if cls.None? {
      DecodeCompactShortOfEncode(ID_NULL_OBJECT, true, rest);
    } else {
      ReadClassOfWriteClass(k, cls, rest);
    }
  }

  /**
   The null sentinel: a null object is one byte that `readClass` reads as
   null, and a non-null object never starts with that byte, so it reads
   back as its own class's entry with its serializer's bytes next.
   */
  lemma NullSentinel(k: Kryo, obj: Option<Object>, rest: seq<byte>)
    requires Consistent(k) && WriteClassAndObject(k, obj).Ok?
    ensures obj.None? ==> ReadClass(k, WriteClassAndObject(k, obj).value + rest) == Ok((None, 1))
    ensures obj.Some? ==>
              var bs := WriteClassAndObject(k, obj).value;
              var e := GetRegisteredClass(k, Some(obj.value.cls)).value;
              && bs[0] != 0
              && ReadClass(k, bs + rest).Ok?
              && ReadClass(k, bs + rest).value.0 == Some(e)
              && (bs + rest)[ReadClass(k, bs + rest).value.1..] == obj.value.data + rest
  {
    if obj.None? {
      assert WriteClassAndObject(k, obj).value + rest == EncodeCompactShort(0, true) + rest;
      DecodeCompactShortOfEncode(0, true, rest);
    } else {
      var (e, head) := WriteClass(k, Some(obj.value.cls)).value;
      var bs := WriteClassAndObject(k, obj).value;
      assert bs + rest == head + (obj.value.data + rest);
      ReadClassOfWriteClass(k, Some(obj.value.cls), obj.value.data + rest);
      assert e.id != 0;
    }
  }

  // ---------------------------------------------------------------------
  // The counter running onto the sentinel
  // ---------------------------------------------------------------------

  /** Registers the given classes in order with one serializer, as written. */
  function RegisterAllAsWritten(k: Kryo, cs: seq<Class>, s: Serializer): Result<Kryo>
    decreases |cs|
  {
    if |cs| == 0 then Ok(k)
    else
      var k' :- RegisterAsWritten(k, Some(cs[0]), Some(s));
      RegisterAllAsWritten(k', cs[1..], s)
  }

  /**
   Each new class moves the counter one place, however many there are: new
   distinct classes registered from a counter at position `p` leave it at
   `p + |cs|`, for as long as that does not pass the sentinel.
   */
  lemma {:induction false} CounterAdvances(k: Kryo, cs: seq<Class>, s: Serializer)
    requires s.owner.None? || s.owner == Some(k.self)
    requires forall i | 0 <= i < |cs| :: cs[i] !in k.byClass
    requires forall i, j | 0 <= i < j < |cs| :: cs[i] != cs[j]
    requires Ord(k.nextClassID) + |cs| <= 0x1_0000
    ensures RegisterAllAsWritten(k, cs, s).Ok?
    ensures Ord(RegisterAllAsWritten(k, cs, s).value.nextClassID) == Ord(k.nextClassID) + |cs|
    ensures RegisterAllAsWritten(k, cs, s).value.self == k.self
    ensures forall c :: c in RegisterAllAsWritten(k, cs, s).value.byClass <==> c in k.byClass || c in cs
    decreases |cs|
  {
    if |cs| > 0 {
      var k' := RegisterAsWritten(k, Some(cs[0]), Some(s)).value;
      assert forall i | 0 <= i < |cs[1..]| :: cs[1..][i] !in k'.byClass by {
        forall i | 0 <= i < |cs[1..]|
          ensures cs[1..][i] !in k'.byClass
        {
          assert cs[1..][i] == cs[i + 1] != cs[0];
        }
      }
      CounterAdvances(k', cs[1..], s);
      assert cs == [cs[0]] + cs[1..];
    }
  }

  /**
   With the 17 built-ins in place, 65518 more distinct classes bring the
   counter onto the sentinel 0.
   */
  lemma CounterReachesSentinel(self: nat, cs: seq<Class>, s: Serializer)
    requires s.owner.None? || s.owner == Some(self)
    requires |cs| == 0x1_0000 - 18
    requires forall i | 0 <= i < |cs| :: !IsBuiltIn(cs[i])
    requires forall i, j | 0 <= i < j < |cs| :: cs[i] != cs[j]
    ensures RegisterAllAsWritten(NewKryo(self), cs, s).Ok?
    ensures RegisterAllAsWritten(NewKryo(self), cs, s).value.nextClassID == 0
    ensures RegisterAllAsWritten(NewKryo(self), cs, s).value.self == self
    ensures forall c :: c in RegisterAllAsWritten(NewKryo(self), cs, s).value.byClass <==> IsBuiltIn(c) || c in cs
  {
    NewKryoIds(self);
    CounterAdvances(NewKryo(self), cs, s);
  }

  /**
   As written, the class registered when the counter stands on 0 is filed
   under the sentinel: `writeClass` writes it as the byte 0 and `readClass`
   reads that back as null.
   */
  lemma SentinelAssignedAsWritten(k: Kryo, c: Class, s: Serializer)
    requires k.nextClassID == 0 && c !in k.byClass
    requires s.owner.None? || s.owner == Some(k.self)
    ensures RegisterAsWritten(k, Some(c), Some(s)).Ok?
    ensures var k' := RegisterAsWritten(k, Some(c), Some(s)).value;
            && k'.byClass[c].id == ID_NULL_OBJECT
            && WriteClass(k', Some(c)).Ok?
            && WriteClass(k', Some(c)).value.1 == [0]
            && ReadClass(k', WriteClass(k', Some(c)).value.1) == Ok((None, 1))
  {
    var k' := RegisterAsWritten(k, Some(c), Some(s)).value;
    assert EncodeCompactShort(0, true) == [0];
    assert ReadClass(k', [0]) == Ok((None, 1)) by {
      DecodeCompactShortOfEncode(0, true, []);
      assert [0] + [] == [0];
    }
  }

  /** The corrected registration refuses a new class instead of filing it under the sentinel. */
  lemma SentinelRefused(k: Kryo, c: Class, s: Serializer)
    requires k.nextClassID == 0 && c !in k.byClass
    requires s.owner.None? || s.owner == Some(k.self)
    ensures Register(k, Some(c), Some(s)) == Err(ClassIdsExhausted)
  {
  }

  /**
   The finding end to end: after the constructor and 65518 distinct new
   classes, the code as written files one more new class under the sentinel,
   so it is written as the byte 0 and read back as null, while the corrected
   registration refuses it.
   */
  lemma SentinelAfterRegistrations(self: nat, cs: seq<Class>, c: Class, s: Serializer)
    requires s.owner.None? || s.owner == Some(self)
    requires |cs| == 0x1_0000 - 18
    requires forall i | 0 <= i < |cs| :: !IsBuiltIn(cs[i])
    requires forall i, j | 0 <= i < j < |cs| :: cs[i] != cs[j]
    requires !IsBuiltIn(c) && c !in cs
    ensures RegisterAllAsWritten(NewKryo(self), cs, s).Ok?
    ensures var k := RegisterAllAsWritten(NewKryo(self), cs, s).value;
            && RegisterAsWritten(k, Some(c), Some(s)).Ok?
            && var k' := RegisterAsWritten(k, Some(c), Some(s)).value;
               && WriteClass(k', Some(c)).Ok?
               && WriteClass(k', Some(c)).value.1 == [ID_NULL_OBJECT]
               && ReadClass(k', WriteClass(k', Some(c)).value.1) == Ok((None, 1))
    ensures Register(RegisterAllAsWritten(NewKryo(self), cs, s).value, Some(c), Some(s)) == Err(ClassIdsExhausted)
  {
    CounterReachesSentinel(self, cs, s);
    var k := RegisterAllAsWritten(NewKryo(self), cs, s).value;
    SentinelAssignedAsWritten(k, c, s);
    SentinelRefused(k, c, s);
  }
}
