/** Bytes, 16-bit words, and the two byte orders the program uses to move a
    word on and off the wire. */
module Bytes {

  /** An unsigned 8-bit value (Go's `byte`). */
  type Byte = b: int | 0 <= b < 0x100

  /** An unsigned 16-bit value (Go's `uint16`). */
  type Word = w: int | 0 <= w < 0x1_0000

  /** The two bytes of `w`, low byte first: `byte(raw & 0xFF)` then
      `byte((raw >> 8) & 0xFF)`. */
  function LowByteFirst(w: Word): (b: seq<Byte>)
    ensures |b| == 2
    ensures b[0] as int + 0x100 * (b[1] as int) == w
  {
    [w % 0x100, w / 0x100]
  }

  /** The word read from two bytes with the first one as the high byte
      (`binary.BigEndian.Uint16`). */
  function BigEndianWord(first: Byte, second: Byte): (w: Word)
    ensures w / 0x100 == first && w % 0x100 == second
  {
    first * 0x100 + second
  }

  /** The same word with its two bytes exchanged. */
  function SwapBytes(w: Word): (s: Word)
    ensures s / 0x100 == w % 0x100 && s % 0x100 == w / 0x100
  {
    (w % 0x100) * 0x100 + w / 0x100
  }

  /** Reading back low-byte-first bytes as big-endian gives the byte-swapped
      word, and that word back again only when both bytes are equal. */
  lemma BigEndianOfLowByteFirst(w: Word)
    ensures BigEndianWord(LowByteFirst(w)[0], LowByteFirst(w)[1]) == SwapBytes(w)
    ensures SwapBytes(w) == w <==> w % 0x100 == w / 0x100
  {
  }

  /** Big-endian reading is the inverse of emitting the high byte first. */
  lemma BigEndianOfHighByteFirst(w: Word)
    ensures BigEndianWord(w / 0x100, w % 0x100) == w
  {
  }
}
