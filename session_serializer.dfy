/**
 * The session codec: a session is packed as eleven MessagePack values in a fixed
 * order with no field names (the attribute hash from the metadata, then ten
 * session fields) and read back position by position.
 */
module SessionSerializer {
  import opened Wrappers
  import opened JavaLang
  import opened AssocList
  import opened Wire
  import opened UUIDValue
  import opened MsgPackUtil
  import opened Model

  // ------------------------------------------------------- packer / unpacker

  /** A MessageBufferPacker: the values packed so far. */
  class Packer {
    var out: Payload

    constructor()
      ensures out == []
    {
      out := [];
    }

    method PackValue(v: WireValue)
      modifies this
      ensures out == old(out) + [v]
    {
      out := out + [v];
    }

    method PackLong(x: int64)
      modifies this
      ensures out == old(out) + [Int(x as int as MsgInt)]
    {
      out := out + [Int(x as int as MsgInt)];
    }

    method PackInt(x: int32)
      modifies this
      ensures out == old(out) + [Int(x as int as MsgInt)]
    {
      out := out + [Int(x as int as MsgInt)];
    }

    method PackBoolean(b: bool)
      modifies this
      ensures out == old(out) + [Bool(b)]
    {
      out := out + [Bool(b)];
    }
  }

  /** The value at position i of a stream, or the exception for reading past its end. */
  function ValueAt(data: Payload, i: nat): (r: Result<WireValue, Exception>)
    ensures r.Success? <==> i < |data|
    ensures r.Success? ==> r.value == data[i]
    ensures r.Failure? ==> r.error == MessageInsufficientBuffer
  {
    if i < |data| then Success(data[i]) else Failure(MessageInsufficientBuffer)
  }

  /** unpackLong on one value: an integer in the long range, else an exception. */
  function LongOf(w: WireValue): (r: Result<int64, Exception>)
    ensures r.Success? <==> w.Int? && InInt64Range(w.n as int)
    ensures r.Success? ==> r.value as int == w.n as int
    ensures w.Int? && !InInt64Range(w.n as int) ==> r == Failure(MessageIntegerOverflow)
    ensures !w.Int? ==> r == Failure(MessageTypeMismatch)
  {
    if !w.Int? then Failure(MessageTypeMismatch)
    else if InInt64Range(w.n as int) then Success(w.n as int as int64)
    else Failure(MessageIntegerOverflow)
  }

  /** unpackInt on one value: an integer in the int range, else an exception. */
  function IntOf(w: WireValue): (r: Result<int32, Exception>)
    ensures r.Success? <==> w.Int? && InInt32Range(w.n as int)
    ensures r.Success? ==> r.value as int == w.n as int
    ensures w.Int? && !InInt32Range(w.n as int) ==> r == Failure(MessageIntegerOverflow)
    ensures !w.Int? ==> r == Failure(MessageTypeMismatch)
  {
    if !w.Int? then Failure(MessageTypeMismatch)
    else if InInt32Range(w.n as int) then Success(w.n as int as int32)
    else Failure(MessageIntegerOverflow)
  }

  /** unpackBoolean on one value. */
  function BooleanOf(w: WireValue): (r: Result<bool, Exception>)
    ensures r.Success? <==> w.Bool?
    ensures r.Success? ==> r.value == w.b
    ensures r.Failure? ==> r.error == MessageTypeMismatch
  {
    if w.Bool? then Success(w.b) else Failure(MessageTypeMismatch)
  }

  /** asNumberValue().toLong(): any integer, truncated to its low 64 bits. */
  function NumberOf(w: WireValue): (r: Result<int64, Exception>)
    ensures r.Success? <==> w.Int?
    ensures r.Success? ==> r.value == Wrap64(w.n as int)
    ensures r.Failure? ==> r.error == MessageTypeMismatch
  {
    if w.Int? then Success(Wrap64(w.n as int)) else Failure(MessageTypeMismatch)
  }

  /** A MessageUnpacker over a packed stream: the stream and a read cursor. */
  class Unpacker {
    const data: Payload
    var pos: nat

    constructor(data: Payload)
      ensures this.data == data && pos == 0
    {
      this.data := data;
      pos := 0;
    }

    method UnpackValue() returns (r: Result<WireValue, Exception>)
      modifies this
      ensures r == ValueAt(data, old(pos))
      ensures pos == if r.Success? then old(pos) + 1 else old(pos)
    {
      if pos < |data| {
        r := Success(data[pos]);
        pos := pos + 1;
      } else {
        r := Failure(MessageInsufficientBuffer);
      }
    }

    method UnpackLong() returns (r: Result<int64, Exception>)
      modifies this
      ensures ValueAt(data, old(pos)).Failure? ==> r == Failure(MessageInsufficientBuffer)
      ensures ValueAt(data, old(pos)).Success? ==> r == LongOf(data[old(pos)])
      ensures pos == if r.Success? then old(pos) + 1 else old(pos)
    {
      if pos < |data| {
        r := LongOf(data[pos]);
        if r.Success? {
          pos := pos + 1;
        }
      } else {
        r := Failure(MessageInsufficientBuffer);
      }
    }

    method UnpackInt() returns (r: Result<int32, Exception>)
      modifies this
      ensures ValueAt(data, old(pos)).Failure? ==> r == Failure(MessageInsufficientBuffer)
      ensures ValueAt(data, old(pos)).Success? ==> r == IntOf(data[old(pos)])
      ensures pos == if r.Success? then old(pos) + 1 else old(pos)
    {
      if pos < |data| {
        r := IntOf(data[pos]);
        if r.Success? {
          pos := pos + 1;
        }
      } else {
        r := Failure(MessageInsufficientBuffer);
      }
    }

    method UnpackBoolean() returns (r: Result<bool, Exception>)
      modifies this
      ensures ValueAt(data, old(pos)).Failure? ==> r == Failure(MessageInsufficientBuffer)
      ensures ValueAt(data, old(pos)).Success? ==> r == BooleanOf(data[old(pos)])
      ensures pos == if r.Success? then old(pos) + 1 else old(pos)
    {
      if pos < |data| {
        r := BooleanOf(data[pos]);
        if r.Success? {
          pos := pos + 1;
        }
      } else {
        r := Failure(MessageInsufficientBuffer);
      }
    }
  }

  // ------------------------------------------------------------------ layout

  function StringValue(s: Option<string>): JavaValue {
    if s.Some? then JString(s.value) else Null
  }

  /** A String[] (null elements allowed), or null. */
  function RolesValue(roles: Option<seq<Option<string>>>): JavaValue {
    if roles.None? then Null
    else JArray(StringClass, seq(|roles.value|, i requires 0 <= i < |roles.value| => StringValue(roles.value[i])))
  }

  function AttributesValue(attrs: Option<seq<(JavaValue, JavaValue)>>): JavaValue {
    if attrs.None? then Null else JMap(attrs.value)
  }

  /** The eleven values serialize packs, in order. */
  function Layout(st: SessionState, hash: int64): (r: Payload)
    ensures |r| == 11
    ensures r[0] == Int(hash as int as MsgInt)
    ensures r[1] == Int(st.creationTime as int as MsgInt)
    ensures r[2] == Int(st.lastAccessedTime as int as MsgInt)
    ensures r[3] == Int(st.maxInactiveInterval as int as MsgInt)
    ensures r[4] == Bool(st.isNew) && r[5] == Bool(st.isValid)
    ensures r[6] == Int(st.thisAccessedTime as int as MsgInt)
    ensures r[7] == AsValue(StringValue(st.id))
    ensures r[8] == AsValue(StringValue(st.principalName))
    ensures r[9] == AsValue(RolesValue(st.principalRoles))
    ensures r[10] == AsValue(AttributesValue(st.attributes))
  {
    [ Int(hash as int as MsgInt),
      Int(st.creationTime as int as MsgInt),
      Int(st.lastAccessedTime as int as MsgInt),
      Int(st.maxInactiveInterval as int as MsgInt),
      Bool(st.isNew),
      Bool(st.isValid),
      Int(st.thisAccessedTime as int as MsgInt),
      AsValue(StringValue(st.id)),
      AsValue(StringValue(st.principalName)),
      AsValue(RolesValue(st.principalRoles)),
      AsValue(AttributesValue(st.attributes)) ]
  }

  // ---------------------------------------------------------------- decoding

  /** The checked cast to String after asObject. */
  function CastString(o: JavaValue): (r: Result<Option<string>, Exception>)
    ensures r.Success? <==> o.Null? || o.JString?
    ensures r.Success? ==> StringValue(r.value) == o
    ensures r.Failure? ==> r.error == ClassCast
  {
    match o
    case Null => Success(None)
    case JString(s) => Success(Some(s))
    case _ => Failure(ClassCast)
  }

  /** The checked cast to String[] after asObject: only an array of class String[] passes. */
  function CastStringArray(o: JavaValue): (r: Result<Option<seq<Option<string>>>, Exception>)
    ensures r.Success? <==> o.Null? || (o.JArray? && o.component == StringClass)
    ensures r.Success? && o.JArray? ==> r.value.Some? && |r.value.value| == |o.elems|
    ensures o.Null? ==> r == Success(None)
    ensures r.Failure? ==> r.error == ClassCast
  {
    match o
    case Null => Success(None)
    case JArray(c, es) =>
      if c == StringClass then
        Success(Some(seq(|es|, i requires 0 <= i < |es| => if es[i].JString? then Some(es[i].s) else None)))
      else Failure(ClassCast)
    case _ => Failure(ClassCast)
  }

  /** The checked cast to Map after asObject (the key and value types are erased). */
  function CastMap(o: JavaValue): (r: Result<Option<seq<(JavaValue, JavaValue)>>, Exception>)
    ensures r.Success? <==> o.Null? || o.JMap?
    ensures r.Success? ==> AttributesValue(r.value) == o
    ensures r.Failure? ==> r.error == ClassCast
  {
    match o
    case Null => Success(None)
    case JMap(es) => Success(Some(es))
    case _ => Failure(ClassCast)
  }

  /** Position 0: the attribute hash. */
  function HashAt(data: Payload): Result<int64, Exception> {
    var w :- ValueAt(data, 0);
    NumberOf(w)
  }

  /** The six scalar fields, in their packing order. */
  datatype Scalars = Scalars(
    creationTime: int64, lastAccessedTime: int64, maxInactiveInterval: int32,
    isNew: bool, isValid: bool, thisAccessedTime: int64)

  /** The four fields packed as generic values, after their casts. */
  datatype References = References(
    id: Option<string>, principalName: Option<string>,
    principalRoles: Option<seq<Option<string>>>,
    attributes: Option<seq<(JavaValue, JavaValue)>>)

  /** Positions 1 to 6: three longs, an int, two booleans and a long, read in order. */
  function ScalarsAt(data: Payload): Result<Scalars, Exception> {
    var w1 :- ValueAt(data, 1);
    var creationTime :- LongOf(w1);
    var w2 :- ValueAt(data, 2);
    var lastAccessedTime :- LongOf(w2);
    var w3 :- ValueAt(data, 3);
    var maxInactiveInterval :- IntOf(w3);
    var w4 :- ValueAt(data, 4);
    var isNew :- BooleanOf(w4);
    var w5 :- ValueAt(data, 5);
    var isValid :- BooleanOf(w5);
    var w6 :- ValueAt(data, 6);
    var thisAccessedTime :- LongOf(w6);
    Success(Scalars(creationTime, lastAccessedTime, maxInactiveInterval, isNew, isValid, thisAccessedTime))
  }

  /** Positions 7 to 10: each value decoded by asObject, then cast to its field's type. */
  function ReferencesAt(data: Payload): Result<References, Exception> {
    var w7 :- ValueAt(data, 7);
    var o7 :- AsObject(w7);
    var id :- CastString(o7);
    var w8 :- ValueAt(data, 8);
    var o8 :- AsObject(w8);
    var principalName :- CastString(o8);
    var w9 :- ValueAt(data, 9);
    var o9 :- AsObject(w9);
    var principalRoles :- CastStringArray(o9);
    var w10 :- ValueAt(data, 10);
    var o10 :- AsObject(w10);
    var attributes :- CastMap(o10);
    Success(References(id, principalName, principalRoles, attributes))
  }

  function StateOf(sc: Scalars, refs: References): SessionState {
    SessionState(sc.creationTime, sc.lastAccessedTime, sc.maxInactiveInterval, sc.isNew, sc.isValid,
      sc.thisAccessedTime, refs.id, refs.principalName, refs.principalRoles, Null, refs.attributes)
  }

  /**
   * What deserialize reads: the hash and the session fields, positions 0 to 10 in
   * order, or the first exception raised. userPrincipal is not stored and stays null.
   */
  function DecodeSession(data: Payload): (r: Result<(int64, SessionState), Exception>)
    ensures r.Success? ==> HashAt(data) == Success(r.value.0)
    ensures r.Success? ==> r.value.1.userPrincipal == Null
    ensures |data| < 11 ==> r.Failure?
  {
    var hash :- HashAt(data);
    var sc :- ScalarsAt(data);
    var refs :- ReferencesAt(data);
    Success((hash, StateOf(sc, refs)))
  }

  // -------------------------------------------------------------- operations

  /** serialize: the metadata hash, then the session's fields, packed in order. */
  method Serialize(session: PersistedSession, metadata: PersistedSessionMetadata) returns (bytes: Payload)
    ensures bytes == Layout(session.State(), metadata.attrHash)
  {
    ghost var st := session.State();
    var id := AsValue(StringValue(session.id));
    var principalName := AsValue(StringValue(session.principalName));
    var principalRoles := AsValue(RolesValue(session.principalRoles));
    var attributes := AsValue(AttributesValue(if session.attributes == null then None else Some(session.attributes.entries)));
    bytes := PackSession(session, metadata.attrHash, id, principalName, principalRoles, attributes);
    LayoutIs(st, metadata.attrHash, bytes);
  }

  /** The packer calls of serialize, given the four values already encoded by asValue. */
  method PackSession(session: PersistedSession, hash: int64,
                     id: WireValue, principalName: WireValue, principalRoles: WireValue, attributes: WireValue)
    returns (bytes: Payload)
    ensures bytes == [Int(hash as int as MsgInt), Int(session.creationTime as int as MsgInt),
      Int(session.lastAccessedTime as int as MsgInt), Int(session.maxInactiveInterval as int as MsgInt),
      Bool(session.isNew), Bool(session.isValid), Int(session.thisAccessedTime as int as MsgInt),
      id, principalName, principalRoles, attributes]
  {
    var creationTime, lastAccessedTime, interval := session.creationTime, session.lastAccessedTime, session.maxInactiveInterval;
    var isNew, isValid, thisAccessedTime := session.isNew, session.isValid, session.thisAccessedTime;
    var pack := new Packer();
    pack.PackValue(Int(hash as int as MsgInt));
    pack.PackLong(creationTime);
    pack.PackLong(lastAccessedTime);
    pack.PackInt(interval);
    assert pack.out == [Int(hash as int as MsgInt), Int(creationTime as int as MsgInt),
      Int(lastAccessedTime as int as MsgInt), Int(interval as int as MsgInt)];
    pack.PackBoolean(isNew);
    pack.PackBoolean(isValid);
    pack.PackLong(thisAccessedTime);
    assert pack.out == [Int(hash as int as MsgInt), Int(creationTime as int as MsgInt),
      Int(lastAccessedTime as int as MsgInt), Int(interval as int as MsgInt),
      Bool(isNew), Bool(isValid), Int(thisAccessedTime as int as MsgInt)];
    pack.PackValue(id);
    pack.PackValue(principalName);
    pack.PackValue(principalRoles);
    pack.PackValue(attributes);
    bytes := pack.out;
  }

  lemma LayoutIs(st: SessionState, hash: int64, bytes: Payload)
    requires bytes == [Int(hash as int as MsgInt), Int(st.creationTime as int as MsgInt),
      Int(st.lastAccessedTime as int as MsgInt), Int(st.maxInactiveInterval as int as MsgInt),
      Bool(st.isNew), Bool(st.isValid), Int(st.thisAccessedTime as int as MsgInt),
      AsValue(StringValue(st.id)), AsValue(StringValue(st.principalName)),
      AsValue(RolesValue(st.principalRoles)), AsValue(AttributesValue(st.attributes))]
    ensures bytes == Layout(st, hash)
  {
  }

  /** Reads positions 1 to 6 from an unpacker standing at position 1. */
  method ReadScalars(unpacker: Unpacker) returns (r: Result<Scalars, Exception>)
    requires unpacker.pos == 1
    modifies unpacker
    ensures r == ScalarsAt(unpacker.data)
    ensures r.Success? ==> unpacker.pos == 7
  {
    var creationTime := unpacker.UnpackLong();
    if creationTime.Failure? { return Failure(creationTime.error); }
    var lastAccessedTime := unpacker.UnpackLong();
    if lastAccessedTime.Failure? { return Failure(lastAccessedTime.error); }
    var maxInactiveInterval := unpacker.UnpackInt();
    if maxInactiveInterval.Failure? { return Failure(maxInactiveInterval.error); }
    var isNew := unpacker.UnpackBoolean();
    if isNew.Failure? { return Failure(isNew.error); }
    var isValid := unpacker.UnpackBoolean();
    if isValid.Failure? { return Failure(isValid.error); }
    var thisAccessedTime := unpacker.UnpackLong();
    if thisAccessedTime.Failure? { return Failure(thisAccessedTime.error); }
    return Success(Scalars(creationTime.value, lastAccessedTime.value, maxInactiveInterval.value,
      isNew.value, isValid.value, thisAccessedTime.value));
  }

  /** One generic position: unpackValue, asObject. */
  method ReadObject(unpacker: Unpacker) returns (r: Result<JavaValue, Exception>)
    modifies unpacker
    ensures ValueAt(unpacker.data, old(unpacker.pos)).Failure? ==> r == Failure(MessageInsufficientBuffer)
    ensures ValueAt(unpacker.data, old(unpacker.pos)).Success? ==> r == AsObject(unpacker.data[old(unpacker.pos)])
    ensures r.Success? ==> unpacker.pos == old(unpacker.pos) + 1
  {
    var w := unpacker.UnpackValue();
    if w.Failure? { return Failure(w.error); }
    r := AsObject(w.value);
  }

  /** Reads positions 7 to 10 from an unpacker standing at position 7. */
  method ReadReferences(unpacker: Unpacker) returns (r: Result<References, Exception>)
    requires unpacker.pos == 7
    modifies unpacker
    ensures r == ReferencesAt(unpacker.data)
  {
    var o := ReadObject(unpacker);
    if o.Failure? { return Failure(o.error); }
    var id := CastString(o.value);
    if id.Failure? { return Failure(id.error); }
    o := ReadObject(unpacker);
    if o.Failure? { return Failure(o.error); }
    var name := CastString(o.value);
    if name.Failure? { return Failure(name.error); }
    o := ReadObject(unpacker);
    if o.Failure? { return Failure(o.error); }
    var roles := CastStringArray(o.value);
    if roles.Failure? { return Failure(roles.error); }
    o := ReadObject(unpacker);
    if o.Failure? { return Failure(o.error); }
    var attrs := CastMap(o.value);
    if attrs.Failure? { return Failure(attrs.error); }
    return Success(References(id.value, name.value, roles.value, attrs.value));
  }

  /**
   * The private deserialize: the hash goes into the metadata as soon as it is read,
   * even when a later position fails; the session is a new record.
   */
  method DeserializeRecord(data: Payload, metadata: PersistedSessionMetadata)
    returns (r: Result<PersistedSession, Exception>)
    modifies metadata
    ensures HashAt(data).Success? ==> metadata.attrHash == HashAt(data).value
    ensures HashAt(data).Failure? ==> metadata.attrHash == old(metadata.attrHash)
    ensures r.Success? <==> DecodeSession(data).Success?
    ensures r.Failure? ==> r.error == DecodeSession(data).error
    ensures r.Success? ==> fresh(r.value) && r.value.State() == DecodeSession(data).value.1
    ensures r.Success? && r.value.attributes != null ==> fresh(r.value.attributes)
  {
    var unpacker := new Unpacker(data);
    var h := unpacker.UnpackValue();
    if h.Failure? { return Failure(h.error); }
    var hash := NumberOf(h.value);
    if hash.Failure? { return Failure(hash.error); }
    metadata.SetAttrHash(hash.value);

    var sc := ReadScalars(unpacker);
    if sc.Failure? { return Failure(sc.error); }
    var refs := ReadReferences(unpacker);
    if refs.Failure? { return Failure(refs.error); }
    var session := NewSession(sc.value, refs.value);
    return Success(session);
  }

  /** A new PersistedSession whose fields are assigned the values read. */
  method NewSession(sc: Scalars, refs: References) returns (session: PersistedSession)
    ensures fresh(session) && session.State() == StateOf(sc, refs)
    ensures session.attributes != null ==> fresh(session.attributes)
  {
    session := new PersistedSession();
    session.creationTime := sc.creationTime;
    session.lastAccessedTime := sc.lastAccessedTime;
    session.maxInactiveInterval := sc.maxInactiveInterval;
    session.isNew := sc.isNew;
    session.isValid := sc.isValid;
    session.thisAccessedTime := sc.thisAccessedTime;
    session.id := refs.id;
    session.principalName := refs.principalName;
    session.principalRoles := refs.principalRoles;
    if refs.attributes.Some? {
      session.attributes := new AttributeMap(refs.attributes.value);
    }
  }

  /** The public deserialize into a PersistedSession target: decode, then fromPersistedSession. */
  method DeserializeInto(data: Payload, target: PersistedSession, metadata: PersistedSessionMetadata)
    returns (r: Result<(), Exception>)
    modifies target, metadata
    ensures HashAt(data).Success? ==> metadata.attrHash == HashAt(data).value
    ensures r.Success? <==> DecodeSession(data).Success?
    ensures r.Success? ==> target.State() == DecodeSession(data).value.1
    ensures r.Failure? ==> r.error == DecodeSession(data).error && unchanged(target)
  {
    var p := DeserializeRecord(data, metadata);
    if p.Failure? {
      return Failure(p.error);
    }
    target.FromPersistedSession(p.value);
    return Success(());
  }

  // ----------------------------------------------------------- attribute hash

  /** A 16-byte MD5 digest. */
  type Digest16 = d: seq<uint8> | |d| == 16 witness seq(16, _ => 0)

  /** new BigInteger(bytes): the bytes read big-endian as a two's complement number. */
  function BigIntegerOf(d: seq<uint8>): (r: int)
    requires |d| > 0
    ensures d[0] < 0x80 ==> r == FromBigEndian(d)
    ensures d[0] >= 0x80 ==> r == FromBigEndian(d) - Pow256(|d|)
  {
    if d[0] < 0x80 then FromBigEndian(d) else FromBigEndian(d) - Pow256(|d|)
  }

  /**
   * attributesHashFrom: the MD5 digest of the packed attribute map (or of nil for
   * a null map), as a BigInteger truncated by longValue. md5 stands for the digest of
   * a value's MessagePack bytes.
   */
  function AttributesHashFrom(md5: WireValue -> Digest16, attrs: Option<seq<(JavaValue, JavaValue)>>): (r: int64)
    ensures r == GetLong(md5(AsValue(AttributesValue(attrs)))[8..])
    ensures attrs.None? ==> r == GetLong(md5(Nil)[8..])
  {
    LongValueOfDigest(md5(AsValue(AttributesValue(attrs))));
    Wrap64(BigIntegerOf(md5(AsValue(AttributesValue(attrs)))))
  }

  /** BigInteger.longValue of a 16-byte digest keeps its last eight bytes. */
  lemma LongValueOfDigest(d: Digest16)
    ensures Wrap64(BigIntegerOf(d)) == GetLong(d[8..])
  {
    var hi := d[..8];
    var lo := d[8..];
    assert hi + lo == d;
    FromBigEndianSplit(hi, lo);
    assert lo[..8] == lo;
    Pow256Eight();
    var n := BigIntegerOf(d);
    var q: int := FromBigEndian(hi) - (if d[0] >= 0x80 then TWO_TO_THE_64 else 0);
    assert n == q * TWO_TO_THE_64 + FromBigEndian(lo) by {
      assert Pow256(16) == TWO_TO_THE_64 * TWO_TO_THE_64 by {
        Pow256Add(8, 8);
      }
    }
    ModUnique(n, TWO_TO_THE_64, q, FromBigEndian(lo));
  }

  lemma Pow256Eight()
    ensures Pow256(8) == TWO_TO_THE_64
  {
  }

  lemma {:induction false} Pow256Add(a: nat, b: nat)
    ensures Pow256(a + b) == Pow256(a) * Pow256(b)
  {
    if b > 0 {
      Pow256Add(a, b - 1);
      assert Pow256(a + b) == 256 * Pow256(a + b - 1);
    }
  }

  lemma {:induction false} FromBigEndianSplit(a: seq<uint8>, b: seq<uint8>)
    ensures FromBigEndian(a + b) == FromBigEndian(a) * Pow256(|b|) + FromBigEndian(b)
  {
    if b != [] {
      var c := a + b;
      var b' := b[..|b| - 1];
      assert c[..|c| - 1] == a + b';
      FromBigEndianSplit(a, b');
      calc {
        FromBigEndian(c);
        FromBigEndian(a + b') * 256 + b[|b| - 1] as nat;
        (FromBigEndian(a) * Pow256(|b'|) + FromBigEndian(b')) * 256 + b[|b| - 1] as nat;
        { ShiftByte(FromBigEndian(a), Pow256(|b'|), FromBigEndian(b'), b[|b| - 1] as nat); }
        FromBigEndian(a) * (Pow256(|b'|) * 256) + (FromBigEndian(b') * 256 + b[|b| - 1] as nat);
      }
    } else {
      assert a + b == a;
    }
  }

  /** Shifting a two-part number left by one byte. */
  lemma ShiftByte(x: int, p: int, y: int, z: int)
    ensures (x * p + y) * 256 + z == x * (p * 256) + (y * 256 + z)
  {
  }

  lemma ModUnique(n: int, m: int, q: int, r: int)
    requires m > 0 && 0 <= r < m && n == q * m + r
    ensures n % m == r
  {
    var q0 := n / m;
    var r0 := n % m;
    assert n == q0 * m + r0;
    if q0 < q {
      assert (q - q0) * m == r0 - r;
      assert (q - q0) * m >= m by {
        MulAtLeast(q - q0, m);
      }
    } else if q < q0 {
      assert (q0 - q) * m == r - r0;
      assert (q0 - q) * m >= m by {
        MulAtLeast(q0 - q, m);
      }
    }
  }

  lemma MulAtLeast(k: int, m: int)
    requires k >= 1 && m > 0
    ensures k * m >= m
  {
  }

  // ------------------------------------------------------------------ lemmas

  /**
   * The states the codec restores: a null principal-role array or one whose first
   * role is non-null, and a null attribute map or one that survives the value codec.
   */
  predicate Persistable(st: SessionState) {
    && (st.principalRoles.None? || (|st.principalRoles.value| > 0 && st.principalRoles.value[0].Some?))
    && (st.attributes.None? || RoundTrippable(JMap(st.attributes.value)))
  }

  /** The state deserialize returns for a serialized state: userPrincipal null, attributes widened. */
  function Restored(st: SessionState): SessionState {
    st.(userPrincipal := Null,
        attributes := if st.attributes.None? then None else Some(Widened(JMap(st.attributes.value)).entries))
  }

  /**
   * The attribute hash of a state read back is the hash of the state written:
   * getAttributesHash applied to the deserialized attributes gives the stored value again.
   */
  lemma RestoredHashesAlike(md5: WireValue -> Digest16, st: SessionState)
    ensures AttributesHashFrom(md5, Restored(st).attributes) == AttributesHashFrom(md5, st.attributes)
  {
    if st.attributes.Some? {
      WidenedEncodesAlike(JMap(st.attributes.value));
    }
  }

  lemma StringRoundTrip(s: Option<string>)
    ensures AsObject(AsValue(StringValue(s))) == Success(StringValue(s))
    ensures CastString(StringValue(s)) == Success(s)
  {
  }

  lemma RolesRoundTrip(roles: Option<seq<Option<string>>>)
    requires roles.None? || (|roles.value| > 0 && roles.value[0].Some?)
    ensures AsObject(AsValue(RolesValue(roles))) == Success(RolesValue(roles))
    ensures CastStringArray(RolesValue(roles)) == Success(roles)
  {
    if roles.Some? {
      var rs := roles.value;
      var v := RolesValue(roles);
      var es := v.elems;
      assert forall i | 0 <= i < |es| :: es[i] == StringValue(rs[i]);
      assert Decoded(v) && RoundTrippable(v) by {
        assert forall i | 0 <= i < |es| :: Decoded(es[i]) && RoundTrippable(es[i]);
        assert Widened(v) == v by {
          WidenedDecoded(v);
        }
        var ws := seq(|es|, i requires 0 <= i < |es| => Widened(es[i]));
        assert ws == es by {
          forall i | 0 <= i < |es| ensures ws[i] == es[i] {
            WidenedDecoded(es[i]);
          }
        }
      }
      ExactRoundTrip(v);
      var back := CastStringArray(v).value.value;
      assert back == rs by {
        forall i | 0 <= i < |rs| ensures back[i] == rs[i] {
          assert es[i] == StringValue(rs[i]);
        }
      }
    }
  }

  lemma AttributesRoundTrip(attrs: Option<seq<(JavaValue, JavaValue)>>)
    requires attrs.None? || RoundTrippable(JMap(attrs.value))
    ensures AsObject(AsValue(AttributesValue(attrs))).Success?
    ensures CastMap(AsObject(AsValue(AttributesValue(attrs))).value) == Success(Restored(EmptyState.(attributes := attrs)).attributes)
  {
    if attrs.Some? {
      RoundTrip(JMap(attrs.value));
    }
  }

  /** The hash and the six scalars of a layout read back as they were written. */
  lemma LayoutScalars(st: SessionState, hash: int64)
    ensures HashAt(Layout(st, hash)) == Success(hash)
    ensures ScalarsAt(Layout(st, hash)) == Success(Scalars(st.creationTime, st.lastAccessedTime,
      st.maxInactiveInterval, st.isNew, st.isValid, st.thisAccessedTime))
  {
    var data := Layout(st, hash);
    assert LongOf(data[1]) == Success(st.creationTime);
    assert LongOf(data[2]) == Success(st.lastAccessedTime);
    assert IntOf(data[3]) == Success(st.maxInactiveInterval);
    assert LongOf(data[6]) == Success(st.thisAccessedTime);
  }

  /**
   * The session round trip: deserializing what serialize wrote restores the hash
   * and every session field, userPrincipal to null and the attributes widened.
   */
  lemma SessionRoundTrip(st: SessionState, hash: int64)
    requires Persistable(st)
    ensures DecodeSession(Layout(st, hash)) == Success((hash, Restored(st)))
  {
    LayoutScalars(st, hash);
    LayoutReferences(st, hash);
  }

  /** Positions 7 to 10 of a persistable state's layout read back as the id, the principal and the widened attributes. */
  lemma LayoutReferences(st: SessionState, hash: int64)
    requires Persistable(st)
    ensures ReferencesAt(Layout(st, hash)) == Success(References(st.id, st.principalName, st.principalRoles,
      Restored(st).attributes))
  {
    StringRoundTrip(st.id);
    StringRoundTrip(st.principalName);
    RolesRoundTrip(st.principalRoles);
    AttributesRoundTrip(st.attributes);
  }

  /** An empty role array comes back as an empty list, which the cast to String[] rejects. */
  lemma EmptyRolesFail(st: SessionState, hash: int64)
    requires st.principalRoles == Some([])
    ensures DecodeSession(Layout(st, hash)) == Failure(ClassCast)
  {
    var data := Layout(st, hash);
    LayoutScalars(st, hash);
    StringRoundTrip(st.id);
    StringRoundTrip(st.principalName);
    assert AsObject(data[9]) == Success(JCollection([]));
  }

  /** A role array whose first role is null cannot be rebuilt: NullPointerException. */
  lemma NullFirstRoleFails(st: SessionState, hash: int64)
    requires st.principalRoles.Some? && |st.principalRoles.value| > 0 && st.principalRoles.value[0].None?
    ensures DecodeSession(Layout(st, hash)) == Failure(NullPointer)
  {
    var data := Layout(st, hash);
    LayoutScalars(st, hash);
    StringRoundTrip(st.id);
    StringRoundTrip(st.principalName);
    var rs := st.principalRoles.value;
    var es := RolesValue(st.principalRoles).elems;
    var ws := seq(|es|, i requires 0 <= i < |es| => AsValue(es[i]));
    assert data[9] == Arr(ws);
    forall i | 0 <= i < |ws| ensures AsObject(ws[i]).Success? {
      assert es[i] == StringValue(rs[i]);
    }
    NilFirstElementFails(ws);
  }

  /** A stream cut short at any position fails with an insufficient-buffer exception. */
  lemma TruncatedFails(st: SessionState, hash: int64, k: nat)
    requires Persistable(st) && k < 11
    ensures DecodeSession(Layout(st, hash)[..k]) == Failure(MessageInsufficientBuffer)
  {
    var data := Layout(st, hash);
    var cut := data[..k];
    assert forall i | 0 <= i < k :: cut[i] == data[i];
    assert ValueAt(cut, k) == Failure(MessageInsufficientBuffer);
    if k < 7 {
      assert k > 0 ==> HashAt(cut).Success?;
      assert k > 1 ==> LongOf(cut[1]).Success?;
      assert k > 2 ==> LongOf(cut[2]).Success?;
      assert k > 3 ==> IntOf(cut[3]).Success?;
      assert k > 4 ==> BooleanOf(cut[4]).Success?;
      assert k > 5 ==> BooleanOf(cut[5]).Success?;
    } else {
      LayoutScalars(st, hash);
      ScalarsAtPrefix(cut, data);
      StringRoundTrip(st.id);
      StringRoundTrip(st.principalName);
      RolesRoundTrip(st.principalRoles);
      assert k > 7 ==> AsObject(cut[7]) == Success(StringValue(st.id));
      assert k > 8 ==> AsObject(cut[8]) == Success(StringValue(st.principalName));
      assert k > 9 ==> AsObject(cut[9]) == Success(RolesValue(st.principalRoles));
      assert ReferencesAt(cut) == Failure(MessageInsufficientBuffer);
    }
  }

  /** The hash and the scalars depend on the first seven values only. */
  lemma ScalarsAtPrefix(d: Payload, e: Payload)
    requires |d| >= 7 && |e| >= 7 && forall i | 0 <= i < 7 :: d[i] == e[i]
    ensures HashAt(d) == HashAt(e) && ScalarsAt(d) == ScalarsAt(e)
  {
  }

  /** A flag position that does not hold a boolean fails with a type exception. */
  lemma NonBooleanFlagFails(st: SessionState, hash: int64, w: WireValue, pos: nat)
    requires pos == 4 || pos == 5
    requires !w.Bool?
    ensures DecodeSession(Layout(st, hash)[pos := w]) == Failure(MessageTypeMismatch)
  {
    var layout := Layout(st, hash);
    var data := layout[pos := w];
    assert data[0] == layout[0] && data[1] == layout[1] && data[2] == layout[2] && data[3] == layout[3];
    assert HashAt(data).Success?;
    assert LongOf(data[1]).Success? && LongOf(data[2]).Success? && IntOf(data[3]).Success?;
    if pos == 4 {
      assert ScalarsAt(data) == Failure(MessageTypeMismatch);
    } else {
      assert data[4] == layout[4];
      assert ScalarsAt(data) == Failure(MessageTypeMismatch);
    }
  }

  /** A time position that does not hold an integer fails with a type exception. */
  lemma NonIntegerTimeFails(st: SessionState, hash: int64, w: WireValue, pos: nat)
    requires pos == 1 || pos == 2 || pos == 6
    requires !w.Int?
    ensures DecodeSession(Layout(st, hash)[pos := w]) == Failure(MessageTypeMismatch)
  {
    var layout := Layout(st, hash);
    var data := layout[pos := w];
    assert data[0] == layout[0];
    assert HashAt(data).Success?;
    assert LongOf(w) == Failure(MessageTypeMismatch);
    if pos == 1 {
      assert ScalarsAt(data) == Failure(MessageTypeMismatch);
    } else if pos == 2 {
      assert data[1] == layout[1];
      assert ScalarsAt(data) == Failure(MessageTypeMismatch);
    } else {
      assert data[1] == layout[1] && data[2] == layout[2] && data[3] == layout[3];
      assert data[4] == layout[4] && data[5] == layout[5];
      assert LongOf(data[1]).Success? && LongOf(data[2]).Success? && IntOf(data[3]).Success?;
      assert ScalarsAt(data) == Failure(MessageTypeMismatch);
    }
  }

  /** A maxInactiveInterval outside the int range fails with an integer-overflow exception. */
  lemma IntervalOverflowFails(st: SessionState, hash: int64, n: MsgInt)
    requires !InInt32Range(n as int)
    ensures DecodeSession(Layout(st, hash)[3 := Int(n)]) == Failure(MessageIntegerOverflow)
  {
  }

  /** A non-integer in the hash position fails before any session field is read. */
  lemma NonIntegerHashFails(data: Payload)
    requires |data| > 0 && !data[0].Int?
    ensures DecodeSession(data) == Failure(MessageTypeMismatch)
  {
  }

  /** A session with a hash, a creation time, an id and two roles reads back with all of them. */
  lemma HashIdAndRolesSurvive()
    ensures
      var st := EmptyState.(creationTime := 123456, isValid := true, id := Some("test-session-id"),
        principalName := Some("principal-name"), principalRoles := Some([Some("ROLE-1"), Some("ROLE-2")]));
      && DecodeSession(Layout(st, -10)).Success?
      && DecodeSession(Layout(st, -10)).value.0 == -10
      && DecodeSession(Layout(st, -10)).value.1.creationTime == 123456
      && DecodeSession(Layout(st, -10)).value.1.id == Some("test-session-id")
      && DecodeSession(Layout(st, -10)).value.1.principalRoles == Some([Some("ROLE-1"), Some("ROLE-2")])
  {
    var st := EmptyState.(creationTime := 123456, isValid := true, id := Some("test-session-id"),
      principalName := Some("principal-name"), principalRoles := Some([Some("ROLE-1"), Some("ROLE-2")]));
    SessionRoundTrip(st, -10);
  }

  /** The UUID 43305804-cd5b-4b42-8e40-124743140d00. */
  const RefUuid: Uuid := Uuid(0x4330_5804_cd5b_4b42, (0x8e40_1247_4314_0d00 - TWO_TO_THE_64) as int64)

  const TestAttributes: seq<(JavaValue, JavaValue)> := [
    (JString("intKey"), JInteger(1)),
    (JString("longKey"), JLong(42)),
    (JString("stringKey"), JString("foo")),
    (JString("uuidKey"), JUuid(RefUuid)),
    (JString("uuidArrayKey"), JArray(UuidClass, [JUuid(RefUuid)]))]

  /** The same attributes as deserialize returns them: the integer as a long. */
  const DecodedTestAttributes: seq<(JavaValue, JavaValue)> := [
    (JString("intKey"), JLong(1)),
    (JString("longKey"), JLong(42)),
    (JString("stringKey"), JString("foo")),
    (JString("uuidKey"), JUuid(RefUuid)),
    (JString("uuidArrayKey"), JArray(UuidClass, [JUuid(RefUuid)]))]

  /** Integers come back as longs; a string, a UUID and a one-element UUID array come back equal. */
  lemma AttributeKindsSurvive()
    ensures DecodeSession(Layout(EmptyState.(attributes := Some(TestAttributes)), 0))
         == Success((0, EmptyState.(attributes := Some(DecodedTestAttributes))))
  {
    TestAttributesWiden();
    TestAttributesRoundTrippable();
    SessionRoundTrip(EmptyState.(attributes := Some(TestAttributes)), 0);
  }

  lemma TestAttributesWiden()
    ensures Widened(JMap(TestAttributes)) == JMap(DecodedTestAttributes)
  {
    var ws := seq(|TestAttributes|, i requires 0 <= i < |TestAttributes| => WidenedEntry(TestAttributes[i]));
    forall i | 0 <= i < |ws| ensures ws[i] == DecodedTestAttributes[i] {
      TestEntryWidens(i);
    }
    assert ws == DecodedTestAttributes;
  }

  /** Entry by entry: each test attribute widens to its decoded counterpart. */
  lemma TestEntryWidens(i: nat)
    requires i < |TestAttributes|
    ensures WidenedEntry(TestAttributes[i]) == DecodedTestAttributes[i]
  {
    if i == 0 {
      assert Widened(JInteger(1)) == JLong(1);
    } else if i == 3 {
      assert WidenedEntry(TestAttributes[3]) == (Widened(JString("uuidKey")), Widened(JUuid(RefUuid)));
    } else if i == 4 {
      var arr := JArray(UuidClass, [JUuid(RefUuid)]);
      assert Widened(arr) == arr by {
        assert Decoded(arr);
        WidenedDecoded(arr);
      }
      assert WidenedEntry(TestAttributes[4]) == (Widened(JString("uuidArrayKey")), Widened(arr));
    }
  }

  lemma TestAttributesRoundTrippable()
    ensures RoundTrippable(JMap(TestAttributes))
  {
    TestAttributesWiden();
    var ws := seq(|TestAttributes|, i requires 0 <= i < |TestAttributes| => WidenedEntry(TestAttributes[i]));
    assert ws == DecodedTestAttributes by {
      assert Widened(JMap(TestAttributes)) == JMap(ws);
    }
    var arr := JArray(UuidClass, [JUuid(RefUuid)]);
    assert RoundTrippable(arr) by {
      assert RoundTrippable(JUuid(RefUuid));
      assert seq(1, i requires 0 <= i < 1 => Widened(arr.elems[i])) == [JUuid(RefUuid)];
    }
    forall i | 0 <= i < |TestAttributes| ensures EntryRoundTrippable(TestAttributes[i]) {
      if i == 4 {
        assert TestAttributes[4] == (JString("uuidArrayKey"), arr);
      }
    }
    TestKeysDistinct();
    assert NoNullValues(DecodedTestAttributes);
  }

  lemma TestKeysDistinct()
    ensures DistinctKeys(DecodedTestAttributes)
  {
    var keys := ["intKey", "longKey", "stringKey", "uuidKey", "uuidArrayKey"];
    assert forall i | 0 <= i < 5 :: DecodedTestAttributes[i].0 == JString(keys[i]);
    assert keys[0][0] == 'i' && keys[1][0] == 'l' && keys[2][0] == 's';
    assert keys[3][4] == 'K' && keys[4][4] == 'A';
    assert forall i, j | 0 <= i < j < 5 :: keys[i] != keys[j];
  }
}
