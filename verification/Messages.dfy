/** The parts of the protocol messages that the transport looks at, and the functions it borrows. */
module Messages {
  import opened Bytes
  import opened Wrappers

  type Digest = seq<bv8>

  datatype AuthType = InvalidAuth | HmacAuthenticated | PinAuthenticated | UnsolicitedStatus

  datatype HmacAuth = HmacAuth(identity: int, hmac: Digest)

  datatype Message = Message(authType: AuthType, hmacAuth: Option<HmacAuth>, pin: Option<bytes>, commandBytes: bytes)

  datatype RemoteStatus = Success | Refused(code: int)

  /** A command: the header fields and status that the transport reads or sets, and an opaque body. */
  datatype Command = Command(
    connectionId: Option<int>,
    sequence: Option<int>,
    ackSequence: Option<int>,
    clusterVersion: int,
    status: RemoteStatus,
    body: bytes)

  /**
   * What the transport borrows from libraries and from the connection options: protobuf encoding (which
   * fails on missing required fields) and decoding, the keyed digest, the HMAC key and the user.
   */
  datatype Protocol = Protocol(
    serializeMessage: Message -> Option<bytes>,
    parseMessage: bytes -> Option<Message>,
    serializeCommand: Command -> bytes,
    parseCommand: bytes -> Option<Command>,
    mac: (bytes, bytes) -> Digest,
    hmacKey: bytes,
    userId: int)

  /** Protobuf decoding undoes protobuf encoding: the one assumption made about the library. */
  ghost predicate CodecRoundTrips(p: Protocol) {
    && (forall m :: p.serializeMessage(m).Some? ==> p.parseMessage(p.serializeMessage(m).value) == Some(m))
    && (forall c :: p.parseCommand(p.serializeCommand(c)) == Some(c))
  }
}
