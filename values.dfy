/** Metadata values and what they serialize to: the Serialize capability behind the
    type-erased entries of the send-side container, and the wire records both sides exchange. */
module Values {
  import opened Basics

  /** grpc::Status: a code (0 is OK) and a message. */
  datatype Status = Status(code: nat, message: string)

  const OK: Status := Status(0, "")

  /** The status code INTERNAL of the gRPC status code table. */
  const INTERNAL: nat := 13

  /** The concrete value types that can be stored. The datatype tag stands in for the C++
      template argument, so a typed lookup can check it. */
  datatype ValueKind = StringKind | ProtoKind

  /** StringMetadataValue holds a string; a proto value holds a message whose encoding the
      message codec decides: Some(its wire bytes), or None when the codec refuses it. */
  datatype MetadataValue =
    | StringValue(str: Bytes)
    | ProtoValue(encoding: Option<Bytes>)

  function KindOf(v: MetadataValue): ValueKind
  {
    match v
    case StringValue(_) => StringKind
    case ProtoValue(_) => ProtoKind
  }

  /** What Serialize(Slice*) produces: the returned status and the slice it filled. */
  datatype Serialized = Serialized(status: Status, slice: Bytes)

  /** A value's own Serialize. StringMetadataValue always succeeds with its string's bytes. */
  function Serialize(v: MetadataValue): (r: Serialized)
    ensures v.StringValue? ==> r == Serialized(OK, v.str)
    ensures r.status == OK <==> (v.StringValue? || v.encoding.Some?)
  {
    match v
    case StringValue(s) => Serialized(OK, s)
    case ProtoValue(enc) =>
      if enc.Some? then Serialized(OK, enc.value)
      else Serialized(Status(INTERNAL, "failed to serialize proto metadata value"), [])
  }

  /** grpc_metadata: one key/value pair of byte strings as the transport sees it. */
  datatype WireRecord = WireRecord(key: Bytes, value: Bytes)

  /** The reserved key under which binary status details travel. */
  const StatusDetailsKey: Bytes := Ascii("grpc-status-details-bin")
}
