/**
 * The slice of the Java platform the session codec and managers rely on:
 * fixed-width integers with their wrap-around, java.util.UUID, the closed set of
 * attribute value kinds the codec knows, their runtime classes, and the
 * exceptions the modelled code can raise.
 */
module JavaLang {

  newtype int8 = x: int | -0x80 <= x < 0x80
  newtype int32 = x: int | -0x8000_0000 <= x < 0x8000_0000
  newtype int64 = x: int | -0x8000_0000_0000_0000 <= x < 0x8000_0000_0000_0000

  /** One byte of a byte[] or of a byte stream, as its unsigned bit pattern. */
  newtype uint8 = x: int | 0 <= x < 0x100

  const TWO_TO_THE_32: int := 0x1_0000_0000
  const TWO_TO_THE_64: int := 0x1_0000_0000_0000_0000

  predicate InInt64Range(n: int) {
    -0x8000_0000_0000_0000 <= n < 0x8000_0000_0000_0000
  }

  predicate InInt32Range(n: int) {
    -0x8000_0000 <= n < 0x8000_0000
  }

  /** Truncation to the low 64 bits, read as two's complement: Java's (long) narrowing, BigInteger.longValue. */
  function Wrap64(n: int): (r: int64)
    ensures (n - r as int) % TWO_TO_THE_64 == 0
    ensures InInt64Range(n) ==> r as int == n
  {
    var m := n % TWO_TO_THE_64;
    if m < 0x8000_0000_0000_0000 then m as int64 else (m - TWO_TO_THE_64) as int64
  }

  /** Truncation to the low 32 bits, read as two's complement: Java's int arithmetic. */
  function Wrap32(n: int): (r: int32)
    ensures (n - r as int) % TWO_TO_THE_32 == 0
    ensures InInt32Range(n) ==> r as int == n
  {
    var m := n % TWO_TO_THE_32;
    if m < 0x8000_0000 then m as int32 else (m - TWO_TO_THE_32) as int32
  }

  /** java.util.UUID: its two 64-bit halves. */
  datatype Uuid = Uuid(mostSigBits: int64, leastSigBits: int64)

  /**
   * The runtime classes of attribute values. ListClass stands for the
   * java.util.Collection classes (an ArrayList when decoded), MapClass for the
   * java.util.Map classes (a HashMap when decoded), ArrayClass for Object arrays.
   */
  datatype JClass =
    | IntegerClass
    | LongClass
    | StringClass
    | BooleanClass
    | UuidClass
    | ListClass
    | MapClass
    | ArrayClass(component: JClass)
    | ObjectClass
    | OtherClass(name: string)

  /**
   * A Java attribute value. JCollection and JMap hold their elements in iteration
   * order; JArray is an Object array with its component class; JOther is an
   * object of any class the codec does not support.
   */
  datatype JavaValue =
    | Null
    | JInteger(i: int32)
    | JLong(l: int64)
    | JString(s: string)
    | JBoolean(b: bool)
    | JUuid(u: Uuid)
    | JCollection(elems: seq<JavaValue>)
    | JMap(entries: seq<(JavaValue, JavaValue)>)
    | JArray(component: JClass, elems: seq<JavaValue>)
    | JOther(cls: string)

  /** v.getClass() */
  function ClassOf(v: JavaValue): JClass
    requires v != Null
  {
    match v
    case JInteger(_) => IntegerClass
    case JLong(_) => LongClass
    case JString(_) => StringClass
    case JBoolean(_) => BooleanClass
    case JUuid(_) => UuidClass
    case JCollection(_) => ListClass
    case JMap(_) => MapClass
    case JArray(c, _) => ArrayClass(c)
    case JOther(name) => OtherClass(name)
  }

  /** c is d or a subclass of d; array classes are covariant in their component class. */
  predicate Subclass(c: JClass, d: JClass) {
    || c == d
    || d == ObjectClass
    || (c.ArrayClass? && d.ArrayClass? && Subclass(c.component, d.component))
  }

  /** c.isInstance(v) */
  predicate InstanceOf(v: JavaValue, c: JClass) {
    v != Null && Subclass(ClassOf(v), c)
  }

  /** The exceptions raised along the modelled paths. */
  datatype Exception =
    | NullPointer               // NullPointerException
    | ArrayStore                // ArrayStoreException
    | DuplicateKey              // IllegalStateException from Collectors.toMap
    | ClassCast                 // ClassCastException
    | BufferUnderflow           // java.nio.BufferUnderflowException
    | IllegalArgument           // IllegalArgumentException
    | IllegalState              // IllegalStateException
    | MessageTypeMismatch       // msgpack MessageTypeException / MessageTypeCastException
    | MessageIntegerOverflow    // msgpack MessageIntegerOverflowException
    | MessageInsufficientBuffer // msgpack MessageInsufficientBufferException
    | CommandFailed             // a failed store command (the future's ExecutionException)
    | IOFailure(cause: Exception) // an IOException wrapping a failed store command
    | PlaceholderSession        // the IOException for data equal to the id-claim placeholder
    | RuntimeFailure(cause: Exception) // a RuntimeException wrapping a checked exception
  {
    predicate IsIOException() {
      IOFailure? || PlaceholderSession?
    }
  }
}
