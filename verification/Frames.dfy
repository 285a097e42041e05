/** frame.hpp and the frame descriptions of encoder.hpp. */
module Frames {
  import opened Common

  const SYNC: u16 := 0x53C7
  const SYNC_HIGH: byte := 0x53
  const SYNC_LOW: byte := 0xC7
  const VERSION: byte := 1
  const HEADER_BYTES: nat := 19
  const MAX_FRAME_PAYLOAD: nat := 0xFFFF

  datatype FrameType = Data | Control | Ack | Reset

  function TypeByte(t: FrameType): byte {
    match t
    case Data => 0
    case Control => 1
    case Ack => 2
    case Reset => 3
  }

  /** Bits 0 to 3 of the flags byte. */
  predicate FinBit(flags: byte) {
    flags % 2 == 1
  }

  predicate FragBit(flags: byte) {
    flags / 2 % 2 == 1
  }

  predicate CompressedBit(flags: byte) {
    flags / 4 % 2 == 1
  }

  predicate CrcBit(flags: byte) {
    flags / 8 % 2 == 1
  }

  /** A message is named by its stream and its number in the stream. */
  datatype Key = Key(streamId: u16, msgId: u32)

  /** A decoded frame; `crc` is None without a header CRC, else whether the stored one matched. */
  datatype Frame = Frame(kind: FrameType, flags: byte, streamId: u16, msgId: u32, seqNo: u16, fragOffset: u32,
                         crc: Option<bool>, payload: bytes)
  {
    predicate Fin() {
      FinBit(flags)
    }

    predicate Compressed() {
      CompressedBit(flags)
    }

    function Id(): Key {
      Key(streamId, msgId)
    }

    /** Where the payload goes: a frame without FRAG is a whole message. */
    function Begin(): nat {
      if FragBit(flags) then fragOffset else 0
    }

    /** One past the last byte, in saturating 32-bit arithmetic. */
    function End(): (e: nat)
      ensures e < TWO32
    {
      Min(Begin() + |payload|, TWO32 - 1)
    }
  }
}
