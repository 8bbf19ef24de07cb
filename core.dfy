/** Routing fields, headers and transfers of the UAVCAN v1.0 transport layer, with the
    bit widths the implementation stores them in. */
module Core {

  datatype Option<T> = None | Some(value: T)

  datatype Result<T, E> = Ok(value: T) | Err(error: E)

  /** The only failure of the transmitter: the frame queue has no room */
  datatype OutOfMemoryError = OutOfMemoryError

  /** Transfer priority, 0 (exceptional) to 7 (optional), stored as a byte */
  type Priority = p: bv8 | p < 8

  /** Message subject identifier, 13 bits */
  type SubjectId = s: bv16 | s < 8192

  /** Service identifier, 9 bits */
  type ServiceId = s: bv16 | s < 512

  /** CAN node identifier, 7 bits */
  type NodeId = n: bv8 | n < 128

  /** CAN transfer identifier, 5 bits */
  type TransferId = t: bv8 | t < 32

  /** A node ID built from the low 7 bits of a byte */
  function NodeIdFromTruncating(bits: bv8): (id: NodeId)
    ensures id as int == bits as int % 128
  {
    bits & 0x7f
  }

  /** Node IDs 126 and 127 are reserved for diagnostic and debugging tools */
  predicate IsDiagnosticReserved(id: NodeId): (reserved: bool)
    ensures reserved <==> id == 126 || id == 127
  {
    id >= 126
  }

  datatype MessageHeader<I> = MessageHeader(
    timestamp: I,
    transferId: TransferId,
    priority: Priority,
    subject: SubjectId,
    source: Option<NodeId>)   // None for an anonymous message

  datatype ServiceHeader<I> = ServiceHeader(
    timestamp: I,
    transferId: TransferId,
    priority: Priority,
    service: ServiceId,
    source: NodeId,
    destination: NodeId)

  /** The header of a transfer: a message, a service request or a service response.
      I is the type of the timestamps the caller attaches. */
  datatype Header<I> =
    | Message(message: MessageHeader<I>)
    | Request(request: ServiceHeader<I>)
    | Response(response: ServiceHeader<I>)
  {
    function Timestamp(): I {
      match this
      case Message(m) => m.timestamp
      case Request(s) => s.timestamp
      case Response(s) => s.timestamp
    }

    function TransferIdOf(): TransferId {
      match this
      case Message(m) => m.transferId
      case Request(s) => s.transferId
      case Response(s) => s.transferId
    }

    function PriorityOf(): Priority {
      match this
      case Message(m) => m.priority
      case Request(s) => s.priority
      case Response(s) => s.priority
    }

    /** The source node; absent only for an anonymous message */
    function Source(): Option<NodeId> {
      match this
      case Message(m) => m.source
      case Request(s) => Some(s.source)
      case Response(s) => Some(s.source)
    }
  }

  /** A transfer: a header and its payload bytes */
  datatype Transfer<I> = Transfer(header: Header<I>, payload: seq<bv8>)
}
