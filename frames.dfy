/** The value type a jitter buffer stores: one received media frame. */
module Frames {

  /** Frame payloads are opaque bytes; nothing in the buffer looks inside them. */
  type Payload = seq<bv8>

  /** A received frame tagged with its sender-assigned sequence number and its
      media timestamp. Sequence numbers are plain (unbounded) integers: the
      buffer compares them with ordinary subtraction, without 16-bit wrap-around. */
  datatype JitterFrame = JitterFrame(payload: Payload, sequenceNumber: int, timestamp: int)
}
