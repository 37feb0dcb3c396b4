/**
 * MessagePack values as the msgpack-java Value API sees them: the kinds the
 * session codec produces or reads back. The byte encoding of these values is not
 * part of this model; a packed stream is the sequence of values written.
 */
module Wire {
  import opened JavaLang

  /** The range a MessagePack integer can carry: int64 and uint64 together. */
  newtype MsgInt = x: int | -0x8000_0000_0000_0000 <= x < 0x1_0000_0000_0000_0000

  datatype WireValue =
    | Nil
    | Int(n: MsgInt)
    | Str(s: string)
    | Bool(b: bool)
    | Ext(typ: int8, data: seq<uint8>)
    | Arr(elems: seq<WireValue>)
    | MapV(entries: seq<(WireValue, WireValue)>)

  /** A packed stream: the values in the order they were packed. */
  type Payload = seq<WireValue>
}
