/** `ElectricBased`: the shared prefix, then the battery level as a
    little-endian 16-bit integer. */
module Ev {
  import opened Outcomes
  import opened JavaBytes
  import opened Layout
  import opened ByteCursor
  import opened Cars

  /** The decoded frame of an electric car; the prefix is embedded. */
  datatype ElectricBased = ElectricBased(base: BaseCommand, batteryLevelPercentage: int)

  /** The widths of the frame's reads: the prefix's, then one integer. */
  const ElectricWidths: seq<nat> := BaseWidths + [2]

  /** Bytes the frame occupies. */
  const ElectricSize: nat := 11

  /** The wire format of the frame, read from the bytes at the position:
      the prefix at offsets 0..8, the battery level at 9..10. */
  function DecodeElectricBased(s: seq<Byte>): Result<ElectricBased>
  {
    if |s| < ElectricSize then BufferUnderflow
    else Ok(ElectricBased(DecodeBase(s).value, CombineLE(s[9], s[10])))
  }

  /** The `ElectricBased(ByteBuffer)` constructor: the prefix, then one
      `parseIntValue` call. On success the record is the wire format of
      the bytes at the position and the position has moved by 11; on
      underflow no record is made and the position has moved past the
      reads that fit. */
  method NewElectricBased(c: Cursor) returns (r: Result<ElectricBased>)
    requires c.Valid()
    modifies c
    ensures c.Valid()
    ensures r == DecodeElectricBased(c.buf[old(c.pos)..])
    ensures c.pos == old(c.pos) + Consumed(ElectricWidths, old(c.Remaining()))
  {
    BaseStops(c.Remaining());
    ElectricStops(c.Remaining());
    var base :- NewBaseCommand(c);
    var batteryLevelPercentage :- ParseIntValue(c);
    return Ok(ElectricBased(base, batteryLevelPercentage));
  }

  /** Where the frame decode leaves the cursor: where the prefix stopped
      if it underflowed; still after the prefix if the battery level's two
      bytes are not both there; after all 11 bytes when they are there. */
  lemma ElectricStops(remaining: nat)
    ensures Consumed(ElectricWidths, remaining) ==
      if remaining < BaseSize then Consumed(BaseWidths, remaining)
      else if remaining < 11 then 9
      else 11
  {
    ConsumedAppend(BaseWidths, [2], remaining);
    BaseLayoutWidth();
  }

  /** The prefix of the frame is exactly what `BaseCommand` decodes from
      the same bytes, and the frame exists only if the prefix does. */
  lemma ElectricExtendsBase(s: seq<Byte>)
    ensures DecodeElectricBased(s).Ok? ==>
      DecodeBase(s).Ok? && DecodeElectricBased(s).value.base == DecodeBase(s).value
  {
  }

  /** The battery level is `b9 + 256 * b10` over unsigned octets, anywhere
      in 0..65535: nothing clamps it to a percentage. */
  lemma ElectricFieldOffsets(s: seq<Byte>)
    requires |s| >= ElectricSize
    ensures DecodeElectricBased(s).Ok?
    ensures DecodeElectricBased(s).value.batteryLevelPercentage == s[9] as int + 256 * s[10] as int
    ensures 0 <= DecodeElectricBased(s).value.batteryLevelPercentage < 0x1_0000
  {
  }

  /** All or nothing: a record is made exactly when the 11 bytes are
      there; with fewer, nothing is returned, and the cursor stops short
      of 11 bytes without passing the limit. */
  lemma ElectricUnderflow(s: seq<Byte>)
    ensures DecodeElectricBased(s).BufferUnderflow? <==> |s| < ElectricSize
    ensures |s| < ElectricSize ==>
      Consumed(ElectricWidths, |s|) < ElectricSize && Consumed(ElectricWidths, |s|) <= |s|
    ensures |s| >= ElectricSize ==> Consumed(ElectricWidths, |s|) == ElectricSize
  {
    ElectricLayoutWidth();
    if |s| < ElectricSize {
      ConsumedShort(ElectricWidths, |s|);
    } else {
      ConsumedWhole(ElectricWidths, |s|);
    }
  }

  /** The record depends on the 11 bytes at the position; bytes after
      offset 10 are never read. */
  lemma ElectricReadsOnlyPrefix(s: seq<Byte>, t: seq<Byte>)
    requires |s| >= ElectricSize && |t| >= ElectricSize
    requires s[..ElectricSize] == t[..ElectricSize]
    ensures DecodeElectricBased(s) == DecodeElectricBased(t)
  {
  }

  /** The frame's reads add up to 9 + 2 = 11 bytes. */
  lemma ElectricLayoutWidth()
    ensures Sum(ElectricWidths) == ElectricSize
  {
    SumAppend(BaseWidths, [2]);
    BaseLayoutWidth();
  }

  /** An electric frame with the first flag set, speed 100 and battery level 50. */
  lemma ElectricExample()
    ensures DecodeElectricBased([0x7F, 0, 0, 0, 0, 0, 0, 0x64, 0x00, 0x32, 0x00]) ==
      Ok(ElectricBased(BaseCommand(true, false, false, false, false, false, false, 100), 50))
  {
  }
}
