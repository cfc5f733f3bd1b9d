/** Fixed-width values of the cipher and the big-endian byte order in which
    magma.cpp reads a block's halves from a byte buffer and writes them back. */
module Words {

  /** An octet of the data stream (`uint8_t`). */
  type Byte = bv8

  /** A 32-bit half-block, key word or round key (`uint32_t`); arithmetic on it wraps modulo 2^32. */
  type Word = bv32

  /** Packs four bytes, most significant first, into a word: the expression
      `(b[0] << 24) | (b[1] << 16) | (b[2] << 8) | b[3]` of the block loop. */
  function WordOf(b: seq<Byte>): Word
    requires |b| == 4
  {
    ((b[0] as Word) << 24) | ((b[1] as Word) << 16) | ((b[2] as Word) << 8) | (b[3] as Word)
  }

  /** Splits a word into its four bytes, most significant first: the
      `(w >> 24) & 0xFF`, ..., `w & 0xFF` pushes of the block loop. */
  function BytesOf(w: Word): (r: seq<Byte>)
    ensures |r| == 4
  {
    [((w >> 24) & 0xFF) as Byte, ((w >> 16) & 0xFF) as Byte, ((w >> 8) & 0xFF) as Byte, (w & 0xFF) as Byte]
  }

  /** Unpacking a packed word gives back its four bytes. */
  lemma BytesOfWordOf(b: seq<Byte>)
    requires |b| == 4
    ensures BytesOf(WordOf(b)) == b
  {
  }

  /** Packing the bytes of a word gives back the word: no bit is lost either way. */
  lemma WordOfBytesOf(w: Word)
    ensures WordOf(BytesOf(w)) == w
  {
  }
}
