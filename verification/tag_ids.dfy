/**
  Basic types of the tag index: 16-bit tag identifiers, the 64-bit size type
  used for counters and length prefixes, and bytes.
 */
module TagIds {

  /** Largest identifier a 16-bit unsigned TagIdType can hold. */
  const MaxTagId: int := 0xFFFF

  /** A tag identifier: an unsigned 16-bit value. */
  type TagId = x: int | 0 <= x <= 0xFFFF

  /** The reserved identifier that never names a live tag. */
  const NullTagId: TagId := 0

  /** Number of values of a 64-bit std::size_t. */
  const SizeModulus: int := 0x1_0000_0000_0000_0000

  /** A std::size_t value, fixed at 64 bits. */
  type Size = x: int | 0 <= x < 0x1_0000_0000_0000_0000

  /** One byte of a serialized stream or of a tag name. */
  type Byte = x: int | 0 <= x < 256

  /** Tag names are byte strings (std::string). */
  type Name = seq<Byte>

  /** `++x` on a std::size_t: wraps to 0 past the largest value. */
  function Inc(x: Size): (r: Size)
    ensures x + 1 < SizeModulus ==> r == x + 1
    ensures x + 1 == SizeModulus ==> r == 0
  {
    (x + 1) % SizeModulus
  }

  /** `--x` on a std::size_t: wraps to the largest value below 0. */
  function Dec(x: Size): (r: Size)
    ensures x > 0 ==> r + 1 == x
    ensures x == 0 ==> r == SizeModulus - 1
  {
    if x == 0 then SizeModulus - 1 else x - 1
  }

  /** Increment and decrement undo each other, across the wrap as well. */
  lemma IncDec(x: Size)
    ensures Dec(Inc(x)) == x && Inc(Dec(x)) == x
  {
  }
}
