/**
 Java value types shared by the exchange context and the partition request
 message: fixed-width integers, nullable references and the exchange id.
 */
module Types {

  /** Java `byte`. */
  type int8 = x: int | -0x80 <= x < 0x80

  /** Java `short`. */
  type int16 = x: int | -0x8000 <= x < 0x8000

  /** Java `int` (and a non-null boxed `Integer`). */
  type int32 = x: int | -0x8000_0000 <= x < 0x8000_0000

  /** Java `long`. */
  type int64 = x: int | -0x8000_0000_0000_0000 <= x < 0x8000_0000_0000_0000

  /** A Java reference that may be null. */
  datatype Option<T> = None | Some(value: T)

  /**
   Identifier of one exchange round: topology version, originating node and
   discovery event type. Only its identity matters here; it is carried on the
   wire as a nested message.
   */
  datatype ExchangeId = ExchangeId(topVer: int64, nodeId: nat, evt: int32)
}
