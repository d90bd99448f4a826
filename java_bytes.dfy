/** Java's signed `byte` and the two byte-level computations the decoders
    perform on it: the sentinel test `b == 127` and the little-endian
    combination of two bytes into an `int`. */
module JavaBytes {

  /** A Java `byte`, kept as its eight bits. */
  type Byte = bv8

  /** The value Java gives the byte: two's complement, -128..127. */
  function Value(b: Byte): (v: int)
    ensures -128 <= v < 128
    ensures v % 256 == b as int
  {
    if b < 0x80 then b as int else b as int - 256
  }

  /** The sentinel boolean: Java compares the signed byte with 127, which
      holds for the one bit pattern 0x7F; every other byte, 0 and the
      negative ones included, is false. */
  function Flag(b: Byte): (r: bool)
    ensures r <==> b == 0x7F
  {
    Value(b) == 127
  }

  /** Java's implicit widening of a `byte` operand to a 32-bit `int`:
      the sign bit is copied into the upper 24 bits. */
  function Widen(b: Byte): (w: bv32)
    ensures w & 0xFF == b as bv32
    ensures w & 0xFFFF_FF00 == if b < 0x80 then 0 else 0xFFFF_FF00
  {
    if b < 0x80 then b as bv32 else b as bv32 | 0xFFFF_FF00
  }

  /** `lo & 0xFF | (hi << 8 & 0xFF00)` over the widened operands: the
      bytes are read as unsigned octets, low byte first, and neither
      byte's sign reaches the result. */
  function CombineLE(lo: Byte, hi: Byte): (v: int)
    ensures v == lo as int + 256 * hi as int
    ensures v == Value(lo) % 256 + 256 * (Value(hi) % 256)
    ensures 0 <= v < 0x1_0000
  {
    var bits := (Widen(lo) & 0xFF) | ((Widen(hi) << 8) & 0xFF00);
    MaskedBits(lo, hi);
    OctetsValue(lo, hi);
    bits as int
  }

  /** The masks undo the sign extension: only the two octets remain. */
  lemma MaskedBits(lo: Byte, hi: Byte)
    ensures (Widen(lo) & 0xFF) | ((Widen(hi) << 8) & 0xFF00) == ((hi as bv32) << 8) | (lo as bv32)
  {
  }

  /** Two octets side by side in a 32-bit word, read as an unsigned number. */
  lemma OctetsValue(lo: Byte, hi: Byte)
    ensures (((hi as bv32) << 8) | (lo as bv32)) as int == lo as int + 256 * hi as int
  {
  }
}
