/**
 * Unsigned machine integers as bounded integers, big-endian words over
 * bytes, and the flattening of encoded items.
 */
module Bytes {

  type uint8 = x: int | 0 <= x < 0x100
  type uint16 = x: int | 0 <= x < 0x1_0000
  type uint32 = x: int | 0 <= x < 0x1_0000_0000

  /** `n as u16`: Rust keeps the low 16 bits. */
  function TruncateToUint16(n: nat): (r: uint16)
    ensures n < 0x1_0000 ==> r == n
  {
    n % 0x1_0000
  }

  /** The more significant byte of a 16-bit word. */
  function HighByte(x: uint16): uint8
  {
    x / 0x100
  }

  /** The less significant byte of a 16-bit word. */
  function LowByte(x: uint16): uint8
  {
    x % 0x100
  }

  /** `x.to_be_bytes()` for a 16-bit word: high byte first. */
  function Be16(x: uint16): (r: seq<uint8>)
    ensures |r| == 2
  {
    [HighByte(x), LowByte(x)]
  }

  /** `u16::from_be_bytes([hi, lo])`. */
  function Word16(hi: uint8, lo: uint8): uint16
  {
    hi * 0x100 + lo
  }

  /** Reading back the two bytes of a word gives the word. */
  lemma Be16Inverse(x: uint16)
    ensures Word16(HighByte(x), LowByte(x)) == x
  {
  }

  /** Splitting a word assembled from two bytes gives the bytes. */
  lemma Word16Inverse(hi: uint8, lo: uint8)
    ensures HighByte(Word16(hi, lo)) == hi && LowByte(Word16(hi, lo)) == lo
  {
  }

  /** `x.to_be_bytes()` for a 32-bit word: the more significant half first. */
  function Be32(x: uint32): (r: seq<uint8>)
    ensures |r| == 4
  {
    Be16(x / 0x1_0000) + Be16(x % 0x1_0000)
  }

  /** `u32::from_be_bytes([b0, b1, b2, b3])`. */
  function Word32(b0: uint8, b1: uint8, b2: uint8, b3: uint8): uint32
  {
    Word16(b0, b1) * 0x1_0000 + Word16(b2, b3)
  }

  /** Reading back the four bytes of a 32-bit word gives the word. */
  lemma Be32Inverse(x: uint32)
    ensures var r := Be32(x); Word32(r[0], r[1], r[2], r[3]) == x
  {
    Be16Inverse(x / 0x1_0000);
    Be16Inverse(x % 0x1_0000);
  }

  /** `xs.iter().flat_map(f).collect()`: the encodings of the items, one after another. */
  function FlatMap<T>(xs: seq<T>, f: T -> seq<uint8>): seq<uint8>
  {
    if xs == [] then [] else f(xs[0]) + FlatMap(xs[1..], f)
  }

  /** Appending one item to the list appends its encoding to the flattened bytes. */
  lemma {:induction false} FlatMapSnoc<T>(xs: seq<T>, x: T, f: T -> seq<uint8>)
    ensures FlatMap(xs + [x], f) == FlatMap(xs, f) + f(x)
  {
    if xs == [] {
      assert [x][1..] == [];
    } else {
      assert (xs + [x])[1..] == xs[1..] + [x];
      FlatMapSnoc(xs[1..], x, f);
    }
  }
}
