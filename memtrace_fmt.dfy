/** The packet accessors the decoder uses.

    Their bit layout lives in memtrace_fmt.h, which is not part of this
    model. A packet format is therefore a parameter: a positive packet width
    and an arbitrary total decoding function from one raw chunk to the fields
    the accessors return. Nothing below depends on a particular layout. */
module MemTraceFmt {
  import opened MemTraceTypes

  /** The value of MemPacket_GetType; the `switch` in MemTrace_Next handles
      the first three and silently skips anything else. */
  datatype PacketType = PktAddr | PktRead | PktWrite | PktOther

  /** What the accessors return for one packet:
      MemPacket_IsAligned, MemPacket_IsChecksumCorrect, MemPacket_GetDuration,
      MemPacket_GetType, MemPacket_GetPayload (an ADDR packet's word address),
      MemPacket_RW_UpperByte, MemPacket_RW_LowerByte and MemPacket_RW_Word. */
  datatype MemPacket = MemPacket(
    aligned: bool,
    checksumCorrect: bool,
    duration: u64,
    kind: PacketType,
    payload: u32,
    upperByte: bool,
    lowerByte: bool,
    word: bv16)

  /** `sizeof (MemPacket)` and MemPacket_FromBytes. */
  datatype PacketFormat = PacketFormat(size: nat, fromBytes: seq<bv8> -> MemPacket)

  /** The packet is at least one byte wide, and `size + fileBufHead` cannot
      wrap as a `uint32_t` sum. */
  predicate ValidFormat(f: PacketFormat)
  {
    0 < f.size && f.size + FILE_BUF_SIZE < TWO_32
  }

  /** The one packet that starts the stream `rem`. */
  function FirstPacket(f: PacketFormat, rem: seq<bv8>): MemPacket
    requires f.size <= |rem|
  {
    f.fromBytes(rem[..f.size])
  }

  /** Only the first `sizeof (MemPacket)` bytes decide the packet. */
  lemma FirstPacketPrefix(f: PacketFormat, rem: seq<bv8>, more: seq<bv8>)
    requires f.size <= |rem|
    ensures FirstPacket(f, rem + more) == FirstPacket(f, rem) == f.fromBytes(rem[..f.size])
  {
    assert (rem + more)[..f.size] == rem[..f.size];
  }

  /** A READ or WRITE packet is byte wide unless both lanes are enabled. */
  predicate ByteWide(p: MemPacket)
  {
    !(p.upperByte && p.lowerByte)
  }
}
