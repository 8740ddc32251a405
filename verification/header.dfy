/** The frame header as an opaque value. Its 6-byte bit packing is not part
    of this model; only the stream id, the type tag and the flag set that the
    framing layer reads and writes are kept. */
module Header {

  /** Go's `uint32`, the type of a stream id argument. */
  type uint32 = n: int | 0 <= n < 0x1_0000_0000

  /** The frame type tag. */
  datatype FrameType =
    | Setup | Lease | Keepalive | RequestResponse | RequestFNF | RequestStream
    | RequestChannel | RequestN | Cancel | Payload | Error | MetadataPush
    | Resume | ResumeOK | Extension

  /** The individual flag bits. Only `FlagMetadata` means anything to the
      shared body layout; the others are type-specific. */
  datatype FrameFlag = FlagNext | FlagComplete | FlagFollow | FlagMetadata | FlagIgnore

  /** A flag bitset, as the set of bits that are on. */
  type Flags = set<FrameFlag>

  /** The decoded header of a frame. */
  datatype Header = Header(streamID: uint32, frameType: FrameType, flags: Flags)

  /** Whether the header announces a metadata section (`Flags().Check(FlagMetadata)`). */
  predicate HasMetadata(h: Header) {
    FlagMetadata in h.flags
  }
}
