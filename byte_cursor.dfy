/** The part of `java.nio.ByteBuffer` the decoders use: a position moving
    forward over the bytes before the limit, a one-byte relative `get()`
    and a bulk relative `get(byte[])`, both throwing
    `BufferUnderflowException` when too few bytes remain. */
module ByteCursor {
  import opened Outcomes
  import opened JavaBytes

  class Cursor {
    /** The buffer's bytes from index 0 up to its limit. The decoders never
        write to the buffer. */
    const buf: seq<Byte>
    /** The buffer's position: the index of the next byte to read. */
    var pos: nat

    ghost predicate Valid()
      reads this
    {
      pos <= |buf|
    }

    /** `remaining()`: the bytes between the position and the limit. */
    function Remaining(): nat
      reads this
      requires Valid()
    {
      |buf| - pos
    }

    /** A buffer wrapping `bytes`, positioned at its first byte. */
    constructor (bytes: seq<Byte>)
      ensures Valid()
      ensures buf == bytes && pos == 0
    {
      buf := bytes;
      pos := 0;
    }

    /** `get()`: the byte at the position, which then moves by one; with no
        byte left it throws and the position stays. */
    method Get() returns (r: Result<Byte>)
      requires Valid()
      modifies this
      ensures Valid()
      ensures old(Remaining()) >= 1 ==> r == Ok(buf[old(pos)]) && pos == old(pos) + 1
      ensures old(Remaining()) < 1 ==> r == BufferUnderflow && pos == old(pos)
    {
      if pos == |buf| {
        return BufferUnderflow;
      }
      r := Ok(buf[pos]);
      pos := pos + 1;
    }

    /** `get(dst)`: fills `dst` with the next `dst.Length` bytes and moves
        the position past them; with fewer bytes left it throws, transfers
        nothing and the position stays. */
    method GetArray(dst: array<Byte>) returns (r: Result<()>)
      requires Valid()
      modifies this, dst
      ensures Valid()
      ensures old(Remaining()) >= dst.Length ==>
        r.Ok? && dst[..] == buf[old(pos)..old(pos) + dst.Length] && pos == old(pos) + dst.Length
      ensures old(Remaining()) < dst.Length ==>
        r == BufferUnderflow && dst[..] == old(dst[..]) && pos == old(pos)
    {
      if |buf| - pos < dst.Length {
        return BufferUnderflow;
      }
      forall i | 0 <= i < dst.Length {
        dst[i] := buf[pos + i];
      }
      pos := pos + dst.Length;
      return Ok(());
    }
  }
}
