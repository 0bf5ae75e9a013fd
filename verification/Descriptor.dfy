/** Field descriptors of message types, and the values of message structs. */
module Descriptor {
  import opened Bytes
  import opened Wrappers

  datatype LType =
    | Bool | Varint | UVarint | SVarint | Fixed32 | Fixed64
    | ByteArray | String | Submessage | Extension | FixedLengthBytes

  datatype HType = Required | Optional | Repeated | OneOf

  datatype AType = Static | Pointer | Callback

  /** An offset that marks further members of the same union. */
  const SIZE_MAX: int := 0xFFFF_FFFF

  /** The size field in front of a byte array. */
  const BYTES_HEADER: nat := 4

  const POINTER_SIZE: nat := 8

  /**
   * `dataOffset` is relative to the end of the previous field, and `sizeOffset`
   * relative to the data.  `sub` describes a submessage, `default` is the
   * default value of any other type.
   */
  datatype Field = Field(
    tag: nat, atype: AType, htype: HType, ltype: LType,
    dataOffset: int, sizeOffset: int, dataSize: nat, arraySize: nat,
    sub: seq<Field>, default: Option<Val>)

  /** A value of a field: a number, bytes or characters, or a message. */
  datatype Val = VNum(n: int) | VBytes(bytes: seq<Byte>) | VMsg(slots: Message)

  /**
   * What a struct stores for a field: the has flag, count or chosen tag where
   * there is one, and one value, or one for each entry of an array.
   */
  datatype Slot = Slot(size: nat, items: seq<Val>)

  /** A struct: a slot for each field; the members of a union share the slot of the first. */
  type Message = seq<Slot>

  /** The types whose arrays are packed. */
  predicate Packable(t: LType) {
    t.Bool? || t.Varint? || t.UVarint? || t.SVarint? || t.Fixed32? || t.Fixed64?
  }

  /** Whether field `p` shares its storage with the member of a union before it. */
  predicate SharesStorage(fields: seq<Field>, p: nat) {
    0 < p < |fields| && fields[p - 1].htype.OneOf? && fields[p].htype.OneOf? && fields[p].dataOffset == SIZE_MAX
  }

  /** The slot in which field `p` is stored. */
  function Home(fields: seq<Field>, p: nat): (home: nat)
    ensures home <= p
  {
    if SharesStorage(fields, p) then Home(fields, p - 1) else p
  }
}
