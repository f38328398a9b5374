/** Sizes and units that several parts share. */
module Limits {

  /** maxPacket, and maxPacket - headerLen: every caller of the sender keeps its payload within the
      latter. */
  const MAX_PACKET := 1500
  const MAX_PAYLOAD := 1478

  /** The capacities of ackCh and controlCh. */
  const ACK_BUFFER := 8
  const CONTROL_BUFFER := 16

  /** The bytes of a public key, and the nanoseconds of a second. */
  const PUBKEY_LEN := 33
  const SECOND := 1_000_000_000
}
