/** Viewing a byte as eight bits and back. */
module BitCasts {
  import opened Bytes

  /** A byte viewed as bits and back is the same byte. */
  lemma ByteBits(x: uint8)
    ensures (x as bv8) as int == x
  {
    assert x % 0x100 == x;
  }

  /** Bits viewed as a byte and back are the same bits. */
  lemma BitsByte(b: bv8)
    ensures (b as int) as bv8 == b
  {
  }
}
