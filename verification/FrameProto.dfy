/** Constants and wire layout of the ExLink command frame:

      MAGIC (2) | OP (1) | LEN (2, low byte first) | PAYLOAD (LEN) | CRC16 (2, low byte first)
 */
module FrameProto {
  type byte = bv8

  const MAGIC0: byte := 0x4C
  const MAGIC1: byte := 0x4B
  const MAX_PAYLOAD := 4096
  const HEADER_LEN := 5
  const CRC_LEN := 2
  const FRAME_OVERHEAD := HEADER_LEN + CRC_LEN
  const MAX_FRAME := FRAME_OVERHEAD + MAX_PAYLOAD

  const CRC16_POLY: bv16 := 0x1021
  const CRC16_INIT: bv16 := 0xFFFF
}
