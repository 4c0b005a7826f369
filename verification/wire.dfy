/** Shared vocabulary: an optional value, the 16-bit counters the transport
    uses, and the abstract token stream a packet's bits are modelled as. */
module Wire {

  datatype Option<+T> = None | Some(value: T)

  /** An unsigned 16-bit value: the width of packet indices and message ids. */
  type U16 = x: int | 0 <= x < 0x1_0000

  type PacketIndex = U16

  type MessageId = U16

  /** One abstract unit of a packet's bitstream. The codec that turns these
      into bits is not modelled; only the order in which units are written and
      read matters to the channel layer. */
  datatype Token =
    | ListHeader(count: nat)        // number of messages in the run that follows
    | MessageIdTag(id: MessageId)   // identity of a reliable message
    | KindTag(kind: nat)            // discriminant of the message kind
    | Field(value: int)             // one encoded payload field

  /** The last element of a non-empty sequence. */
  function Last<T>(s: seq<T>): T
    requires |s| > 0
  {
    s[|s| - 1]
  }
}
