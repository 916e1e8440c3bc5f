/**
 * The wire-level record of one fragment and the constants of the transport.
 * The contents of the messages module (the payload cap, the current version and
 * the CBOR layout) are not part of this model: they enter as a record.
 */
module Messages {
  import opened Primitives
  import opened RoutingNumbers

  /** Upper bound on one encoded routing message: 16 MiB. */
  const MAX_MESSAGE_SIZE: nat := 16 * 1024 * 1024

  /** The payload cap of one fragment and the version tag every fragment carries. */
  datatype MessageConstants = MessageConstants(maxPayloadSize: nat, currentVersion: u8) {
    predicate Valid() {
      maxPayloadSize > 0
    }
  }

  /** `UdpTransportMessage`: one fragment of a routing message. */
  datatype TransportMessage = TransportMessage(
    version: u8,
    routingNumber: RoutingNumber,
    offset: u16,
    total: u16,
    payload: seq<byte>)
}
