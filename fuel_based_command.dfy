/** `FuelBasedCommand`: the shared prefix, then two sentinel booleans and
    three little-endian 16-bit integers. */
module FuelBased {
  import opened Outcomes
  import opened JavaBytes
  import opened Layout
  import opened ByteCursor
  import opened Cars

  /** The decoded frame of a fuel-powered car; the prefix is embedded. */
  datatype FuelBasedCommand = FuelBasedCommand(
    base: BaseCommand,
    oilPressureLow: bool,
    sparkPlugOn: bool,
    rpm: int,
    fuelLevel: int,
    engineTemperature: int)

  /** The widths of the frame's reads: the prefix's, then the constructor's own. */
  const FuelWidths: seq<nat> := BaseWidths + [1, 1, 2, 2, 2]

  /** Bytes the frame occupies. */
  const FuelSize: nat := 17

  /** The wire format of the frame, read from the bytes at the position:
      the prefix at offsets 0..8, the flags at 9 and 10, rpm at 11..12,
      fuel level at 13..14 and engine temperature at 15..16. */
  function DecodeFuelBased(s: seq<Byte>): Result<FuelBasedCommand>
  {
    if |s| < FuelSize then BufferUnderflow
    else Ok(FuelBasedCommand(
      DecodeBase(s).value,
      Flag(s[9]), Flag(s[10]),
      CombineLE(s[11], s[12]), CombineLE(s[13], s[14]), CombineLE(s[15], s[16])))
  }

  /** The `FuelBasedCommand(ByteBuffer)` constructor: the prefix, two
      `get()` calls compared with the sentinel, then three `parseIntValue`
      calls. On success the record is the wire format of the bytes at the
      position and the position has moved by 17; on underflow no record is
      made and the position has moved past the reads that fit. */
  method NewFuelBasedCommand(c: Cursor) returns (r: Result<FuelBasedCommand>)
    requires c.Valid()
    modifies c
    ensures c.Valid()
    ensures r == DecodeFuelBased(c.buf[old(c.pos)..])
    ensures c.pos == old(c.pos) + Consumed(FuelWidths, old(c.Remaining()))
  {
    BaseStops(c.Remaining());
    FuelStops(c.Remaining());
    var base :- NewBaseCommand(c);
    var oilPressure :- c.Get();
    var sparkPlug :- c.Get();
    var rpm :- ParseIntValue(c);
    var fuelLevel :- ParseIntValue(c);
    var engineTemperature :- ParseIntValue(c);
    return Ok(FuelBasedCommand(base, Flag(oilPressure), Flag(sparkPlug), rpm, fuelLevel, engineTemperature));
  }

  /** Where the frame decode leaves the cursor: where the prefix stopped
      if it underflowed; after each of the two flag bytes that is there;
      after each integer whose two bytes are both there; after all 17
      bytes when they are there. */
  lemma FuelStops(remaining: nat)
    ensures Consumed(FuelWidths, remaining) ==
      if remaining < BaseSize then Consumed(BaseWidths, remaining)
      else if remaining < 11 then remaining
      else if remaining < 13 then 11
      else if remaining < 15 then 13
      else if remaining < 17 then 15
      else 17
  {
    var tail: seq<nat> := [1, 1, 2, 2, 2];
    ConsumedAppend(BaseWidths, tail, remaining);
    BaseLayoutWidth();
    if remaining >= BaseSize {
      var rest := remaining - BaseSize;
      if rest >= 8 {
        ConsumedWhole(tail, rest);
      } else {
        // Below the tail's width, each case is a computation on literals.
        match rest
        case 0 => assert Consumed(tail, 0) == 0;
        case 1 => assert Consumed(tail, 1) == 1;
        case 2 => assert Consumed(tail, 2) == 2;
        case 3 => assert Consumed(tail, 3) == 2;
        case 4 => assert Consumed(tail, 4) == 4;
        case 5 => assert Consumed(tail, 5) == 4;
        case 6 => assert Consumed(tail, 6) == 6;
        case 7 => assert Consumed(tail, 7) == 6;
      }
    }
  }

  /** The prefix of the frame is exactly what `BaseCommand` decodes from
      the same bytes, and the frame exists only if the prefix does. */
  lemma FuelExtendsBase(s: seq<Byte>)
    ensures DecodeFuelBased(s).Ok? ==> DecodeBase(s).Ok? && DecodeFuelBased(s).value.base == DecodeBase(s).value
  {
  }

  /** The frame's own fields in unsigned octets: a flag is set exactly
      when its byte is 0x7F, and each integer is `lo + 256 * hi` in
      0..65535, unclamped. */
  lemma FuelFieldOffsets(s: seq<Byte>)
    requires |s| >= FuelSize
    ensures DecodeFuelBased(s).Ok?
    ensures DecodeFuelBased(s).value.oilPressureLow <==> s[9] == 0x7F
    ensures DecodeFuelBased(s).value.sparkPlugOn <==> s[10] == 0x7F
    ensures DecodeFuelBased(s).value.rpm == s[11] as int + 256 * s[12] as int
    ensures DecodeFuelBased(s).value.fuelLevel == s[13] as int + 256 * s[14] as int
    ensures DecodeFuelBased(s).value.engineTemperature == s[15] as int + 256 * s[16] as int
    ensures 0 <= DecodeFuelBased(s).value.rpm < 0x1_0000
    ensures 0 <= DecodeFuelBased(s).value.fuelLevel < 0x1_0000
    ensures 0 <= DecodeFuelBased(s).value.engineTemperature < 0x1_0000
  {
  }

  /** All or nothing: a record is made exactly when the 17 bytes are
      there; with fewer, nothing is returned, and the cursor stops short
      of 17 bytes without passing the limit. */
  lemma FuelUnderflow(s: seq<Byte>)
    ensures DecodeFuelBased(s).BufferUnderflow? <==> |s| < FuelSize
    ensures |s| < FuelSize ==> Consumed(FuelWidths, |s|) < FuelSize && Consumed(FuelWidths, |s|) <= |s|
    ensures |s| >= FuelSize ==> Consumed(FuelWidths, |s|) == FuelSize
  {
    FuelLayoutWidth();
    if |s| < FuelSize {
      ConsumedShort(FuelWidths, |s|);
    } else {
      ConsumedWhole(FuelWidths, |s|);
    }
  }

  /** The record depends on the 17 bytes at the position and on nothing after them. */
  lemma FuelReadsOnlyPrefix(s: seq<Byte>, t: seq<Byte>)
    requires |s| >= FuelSize && |t| >= FuelSize
    requires s[..FuelSize] == t[..FuelSize]
    ensures DecodeFuelBased(s) == DecodeFuelBased(t)
  {
  }

  /** The frame's reads add up to 9 + 1 + 1 + 2 + 2 + 2 = 17 bytes. */
  lemma FuelLayoutWidth()
    ensures Sum(FuelWidths) == FuelSize
  {
    SumAppend(BaseWidths, [1, 1, 2, 2, 2]);
    BaseLayoutWidth();
  }
}
