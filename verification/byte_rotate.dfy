/**
 * The byte-level macros of the rotator: ROTATE_LEFT and ROTATE_RIGHT combine a
 * byte with one bit taken from its neighbour. A byte is a `bv8`, so the
 * truncation of the C expression on its way into a `uint8_t` is built in.
 */
module ByteRotate {

  /** One byte of a file (`uint8_t`). */
  type Byte = bv8

  /** Single-bit masks, most significant first: `BitMask[k] == 0x80 >> k`. */
  const BitMask: seq<Byte> := [0x80, 0x40, 0x20, 0x10, 0x08, 0x04, 0x02, 0x01]

  /** Bit `k` of `b`, counting from the most significant bit (`k == 0`). */
  predicate Bit(b: Byte, k: nat)
    requires k < 8
  {
    b & BitMask[k] != 0
  }

  /**
   * ROTATE_LEFT(e, n): `e` shifted left by one, its top bit discarded, with the
   * top bit of the following byte `n` shifted in at the bottom.
   */
  function RotateLeftByte(e: Byte, n: Byte): (r: Byte)
    ensures r == e * 2 + n / 128
    ensures forall k | 0 <= k < 7 :: Bit(r, k) == Bit(e, k + 1)
    ensures Bit(r, 7) == Bit(n, 0)
  {
    (e << 1) | ((n & 0x80) >> 7)
  }

  /**
   * ROTATE_RIGHT(e, n): `e` shifted right by one, its bottom bit discarded, with
   * the bottom bit of the preceding byte `n` shifted in at the top.
   */
  function RotateRightByte(e: Byte, n: Byte): (r: Byte)
    ensures r == (n % 2) * 128 + e / 2
    ensures Bit(r, 0) == Bit(n, 7)
    ensures forall k | 1 <= k < 8 :: Bit(r, k) == Bit(e, k - 1)
  {
    ((n & 0x01) << 7) | (e >> 1)
  }

  /**
   * Undoing a left rotation: the byte `e` (between `p` and `n`) is recovered
   * from its rotated self and its rotated predecessor, and symmetrically.
   */
  lemma RotateByteInverse(p: Byte, e: Byte, n: Byte)
    ensures RotateRightByte(RotateLeftByte(e, n), RotateLeftByte(p, e)) == e
    ensures RotateLeftByte(RotateRightByte(e, p), RotateRightByte(n, e)) == e
  {
  }
}
