/** `BaseCommand`: the prefix every frame starts with, seven sentinel
    booleans followed by the speed as a little-endian 16-bit integer. */
module Cars {
  import opened Outcomes
  import opened JavaBytes
  import opened Layout
  import opened ByteCursor

  /** The decoded prefix. Immutable; it keeps no reference to the buffer. */
  datatype BaseCommand = BaseCommand(
    battery12vNotCharging: bool,
    parkingBrakeOn: bool,
    brakesHydraulicFluidLevelLow: bool,
    turningSigns: bool,
    absAnomaly: bool,
    highBeamOn: bool,
    ignition: bool,
    speed: int)

  /** The widths of the prefix's reads, in the order the constructor makes them. */
  const BaseWidths: seq<nat> := [1, 1, 1, 1, 1, 1, 1, 2]

  /** Bytes the prefix occupies. */
  const BaseSize: nat := 9

  /** The wire format of the prefix, read from `s`, the bytes from the
      cursor's position to the limit: offsets 0..6 are the seven flags,
      offsets 7..8 the speed. */
  function DecodeBase(s: seq<Byte>): Result<BaseCommand>
  {
    if |s| < BaseSize then BufferUnderflow
    else Ok(BaseCommand(
      Flag(s[0]), Flag(s[1]), Flag(s[2]), Flag(s[3]), Flag(s[4]), Flag(s[5]), Flag(s[6]),
      CombineLE(s[7], s[8])))
  }

  /** `parseIntValue`: bulk-reads two bytes into a fresh `byte[2]` and
      combines them, low byte first. */
  method ParseIntValue(c: Cursor) returns (r: Result<int>)
    requires c.Valid()
    modifies c
    ensures c.Valid()
    ensures old(c.Remaining()) >= 2 ==>
      r == Ok(CombineLE(c.buf[old(c.pos)], c.buf[old(c.pos) + 1])) && c.pos == old(c.pos) + 2
    ensures old(c.Remaining()) < 2 ==> r == BufferUnderflow && c.pos == old(c.pos)
  {
    var byteValue := new Byte[2];
    var _ :- c.GetArray(byteValue);
    return Ok(CombineLE(byteValue[0], byteValue[1]));
  }

  /** The `BaseCommand(ByteBuffer)` constructor: seven `get()` calls, each
      compared with the sentinel, then `parseIntValue` for the speed. On
      success the record is the wire format of the bytes at the position
      and the position has moved by 9; on underflow no record is made and
      the position has moved past the reads that fit. */
  method NewBaseCommand(c: Cursor) returns (r: Result<BaseCommand>)
    requires c.Valid()
    modifies c
    ensures c.Valid()
    ensures r == DecodeBase(c.buf[old(c.pos)..])
    ensures c.pos == old(c.pos) + Consumed(BaseWidths, old(c.Remaining()))
  {
    BaseStops(c.Remaining());
    var battery :- c.Get();
    var parkingBrake :- c.Get();
    var brakes :- c.Get();
    var turningSigns :- c.Get();
    var absAnomaly :- c.Get();
    var highBeam :- c.Get();
    var ignition :- c.Get();
    var speed :- ParseIntValue(c);
    return Ok(BaseCommand(
      Flag(battery), Flag(parkingBrake), Flag(brakes), Flag(turningSigns),
      Flag(absAnomaly), Flag(highBeam), Flag(ignition), speed));
  }

  /** Where the prefix decode leaves the cursor: after all 9 bytes when
      they are there; otherwise after as many flag bytes as there are, up
      to 7, since a speed read that does not fit moves nothing. */
  lemma BaseStops(remaining: nat)
    ensures Consumed(BaseWidths, remaining) ==
      if remaining >= 9 then 9 else if remaining >= 7 then 7 else remaining
  {
    if remaining >= BaseSize {
      assert Sum(BaseWidths) == BaseSize;
      ConsumedWhole(BaseWidths, remaining);
    } else {
      // Below the frame's width, each case is a computation on literals.
      match remaining
      case 0 => assert Consumed(BaseWidths, 0) == 0;
      case 1 => assert Consumed(BaseWidths, 1) == 1;
      case 2 => assert Consumed(BaseWidths, 2) == 2;
      case 3 => assert Consumed(BaseWidths, 3) == 3;
      case 4 => assert Consumed(BaseWidths, 4) == 4;
      case 5 => assert Consumed(BaseWidths, 5) == 5;
      case 6 => assert Consumed(BaseWidths, 6) == 6;
      case 7 => assert Consumed(BaseWidths, 7) == 7;
      case 8 => assert Consumed(BaseWidths, 8) == 7;
    }
  }

  /** The wire format in unsigned octets: a flag is set exactly when its
      byte is 0x7F, and the speed is `b7 + 256 * b8`, never negative and
      never above 65535. */
  lemma BaseFieldOffsets(s: seq<Byte>)
    requires |s| >= BaseSize
    ensures DecodeBase(s) == Ok(BaseCommand(
      s[0] == 0x7F, s[1] == 0x7F, s[2] == 0x7F, s[3] == 0x7F, s[4] == 0x7F, s[5] == 0x7F, s[6] == 0x7F,
      s[7] as int + 256 * s[8] as int))
    ensures 0 <= DecodeBase(s).value.speed < 0x1_0000
  {
  }

  /** A record is made exactly when the 9 bytes are there. */
  lemma BaseUnderflow(s: seq<Byte>)
    ensures DecodeBase(s).BufferUnderflow? <==> |s| < BaseSize
  {
  }

  /** The record depends on the 9 bytes at the position and on nothing after them. */
  lemma BaseReadsOnlyPrefix(s: seq<Byte>, t: seq<Byte>)
    requires |s| >= BaseSize && |t| >= BaseSize
    requires s[..BaseSize] == t[..BaseSize]
    ensures DecodeBase(s) == DecodeBase(t)
  {
  }

  /** The prefix's reads add up to the 9 bytes of the wire format. */
  lemma BaseLayoutWidth()
    ensures Sum(BaseWidths) == BaseSize
  {
  }

  /** Two frames with the bytes Java sees as 127 and as -1: the flags are
      set, and the speed bytes -1, -1 give 65535, not a negative number. */
  lemma BaseExamples()
    ensures DecodeBase([0x7F, 0x7F, 0x7F, 0x7F, 0x7F, 0x7F, 0x7F, 0x7F, 0x7F]) ==
      Ok(BaseCommand(true, true, true, true, true, true, true, 0x7F7F))
    ensures Value(0xFF) == -1
    ensures DecodeBase([0x7F, 0, 0, 0, 0, 0, 0xFF, 0xFF, 0xFF]) ==
      Ok(BaseCommand(true, false, false, false, false, false, false, 65535))
  {
  }
}
