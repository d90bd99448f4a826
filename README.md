# Vehicle telemetry frame decoder

A Dafny model of the binary frame decoder of `coms-middleware`. The decoder
turns fixed-layout frames from a vehicle bus into immutable records. Every
frame starts with a 9-byte prefix (`BaseCommand`):

- seven one-byte sentinel booleans, where the byte 127 (0x7F) means true and
  any other byte means false;
- the speed, a little-endian unsigned 16-bit integer.

A frame from a fuel-powered car (`FuelBasedCommand`, 17 bytes) continues
with two sentinel booleans, then rpm, fuel level and engine temperature as
three 16-bit integers. A frame from an electric car (`ElectricBased`,
11 bytes) continues with the battery level as one 16-bit integer.

The Java classes read a shared `java.nio.ByteBuffer` forward. The model
keeps that shape:

- `ByteCursor.Cursor` is a class holding the buffer's bytes and a mutable
  position. `Get` models the one-byte `get()` and `GetArray` the bulk
  `get(byte[])`. Each returns `BufferUnderflow`, the stand-in for
  `BufferUnderflowException`, when too few bytes remain, and then leaves the
  position where it was.
- `Cars.ParseIntValue`, `Cars.NewBaseCommand`,
  `FuelBased.NewFuelBasedCommand` and `Ev.NewElectricBased` are methods
  that advance the cursor step by step, as the Java code does.
- Each method is proved against a pure function over the bytes at the
  position: `Cars.DecodeBase`, `FuelBased.DecodeFuelBased` or
  `Ev.DecodeElectricBased`. The function gives the wire format as byte
  offsets mapped to fields.
- Each method also states exactly where it leaves the cursor.
  `Layout.Consumed(widths, remaining)` is the total width of the reads
  made before the first read that did not fit.

Java inheritance is modelled as composition: the fuel and electric records
embed a `BaseCommand` record, and their constructors call the prefix decoder
first. Java's `byte` is signed. The model keeps a byte as its eight bits
(`bv8`), and `JavaBytes.Value` gives the signed Java value. The sentinel
test `b == 127` and the masking in `parseIntValue` are written as Java
evaluates them, on the signed value and on a sign-extended 32-bit `int`.
The proofs show that they amount to "the byte is 0x7F" and to
`lo + 256 * hi` over unsigned octets.

When an underflow interrupts a frame, the Java constructor throws and no
record is produced. The shared buffer, however, keeps the position it
reached: it has moved past the fields that were read before the failing
read. The model states that position exactly instead of treating the
decode as free of effects on the cursor.

## Model

| member | source | states |
|---|---|---|
| `JavaBytes.Value` | java/pt/iceman/commsmiddleware/cars/BaseCommand.java:16 | a Java byte read by `get()` has a value in -128..127 that is congruent modulo 256 to its unsigned octet |
| `JavaBytes.Flag` | java/pt/iceman/commsmiddleware/cars/BaseCommand.java:16-35 | the signed comparison `byte == 127` holds exactly when the octet is 0x7F; 0 and every negative byte give false |
| `JavaBytes.Widen` | java/pt/iceman/commsmiddleware/cars/BaseCommand.java:45 | widening a byte operand to `int` keeps its low 8 bits and fills the upper 24 bits with copies of the sign |
| `JavaBytes.CombineLE` | java/pt/iceman/commsmiddleware/cars/BaseCommand.java:45 | the OR of `b0 & 0xFF` and `b1 << 8 & 0xFF00` equals `lo + 256 * hi` over unsigned octets, equally `(b0 mod 256) + 256 * (b1 mod 256)` over the signed values, and always lies in 0..65535 |
| `JavaBytes.MaskedBits` | java/pt/iceman/commsmiddleware/cars/BaseCommand.java:45 | the two masks remove the sign extension of both bytes and leave only the two octets, side by side |
| `JavaBytes.OctetsValue` | java/pt/iceman/commsmiddleware/cars/BaseCommand.java:45 | two octets placed low byte first in a 32-bit word are worth `lo + 256 * hi` |
| `ByteCursor.Cursor.Get` | java/pt/iceman/commsmiddleware/cars/BaseCommand.java:16 | `get()` returns the byte at the position and advances by 1; with no byte left it underflows and the position stays |
| `ByteCursor.Cursor.GetArray` | java/pt/iceman/commsmiddleware/cars/BaseCommand.java:43 | `get(byte[])` fills the array with the next bytes and advances by its length; with too few left it underflows, transfers nothing and the position stays |
| `Layout.ConsumedWhole` | java/pt/iceman/commsmiddleware/cars/BaseCommand.java:16-37 | when all of a frame's bytes remain, the cursor moves by exactly the frame's width |
| `Layout.ConsumedShort` | java/pt/iceman/commsmiddleware/cars/BaseCommand.java:16-37 | when bytes are missing, the cursor stops short of the frame's width and never passes the limit |
| `Layout.ConsumedAppend` | java/pt/iceman/commsmiddleware/cars/fuelBased/FuelBasedCommand.java:15-25 | an extended frame decodes its prefix first and reaches its own fields only when the whole prefix was read |
| `Layout.SumAppend` | java/pt/iceman/commsmiddleware/cars/fuelBased/FuelBasedCommand.java:15-25 | the width of an extended frame is the prefix's width plus the width of its own fields |
| `Cars.ParseIntValue` | java/pt/iceman/commsmiddleware/cars/BaseCommand.java:40-46 | with 2 bytes left, returns the little-endian value of the next two bytes and advances by exactly 2; otherwise underflows and does not move; only the cursor changes |
| `Cars.NewBaseCommand` | java/pt/iceman/commsmiddleware/cars/BaseCommand.java:15-38 | the result is the wire-format decode of the bytes at the position; the cursor moves by 9 on success, and on underflow by the widths of the reads that fit |
| `Cars.BaseStops` | java/pt/iceman/commsmiddleware/cars/BaseCommand.java:16-37 | the prefix decode leaves the cursor after 9 bytes when they are there; otherwise after min(remaining, 7) bytes, because a failing speed read moves nothing |
| `Cars.BaseFieldOffsets` | java/pt/iceman/commsmiddleware/cars/BaseCommand.java:16-37 | offsets 0..6 are battery12vNotCharging, parkingBrakeOn, brakesHydraulicFluidLevelLow, turningSigns, absAnomaly, highBeamOn and ignition, each true iff its byte is 0x7F; the speed is `b7 + 256 * b8` in 0..65535 |
| `Cars.BaseUnderflow` | java/pt/iceman/commsmiddleware/cars/BaseCommand.java:15-38 | a record is produced exactly when 9 bytes remain; with fewer there is no record |
| `Cars.BaseReadsOnlyPrefix` | java/pt/iceman/commsmiddleware/cars/BaseCommand.java:15-38 | the record depends only on the 9 bytes at the position: equal bytes give an equal record |
| `Cars.BaseLayoutWidth` | java/pt/iceman/commsmiddleware/cars/BaseCommand.java:16-37 | seven 1-byte reads plus one 2-byte read cover the prefix's 9 bytes |
| `Cars.BaseExamples` | java/pt/iceman/commsmiddleware/cars/BaseCommand.java:15-46 | nine 0x7F bytes give all flags true and speed 0x7F7F; the speed bytes that Java reads as -1, -1 give 65535, not a negative value |
| `FuelBased.NewFuelBasedCommand` | java/pt/iceman/commsmiddleware/cars/fuelBased/FuelBasedCommand.java:14-26 | the result is the wire-format decode of the bytes at the position; the cursor moves by 17 on success, and on underflow by the widths of the reads that fit |
| `FuelBased.FuelStops` | java/pt/iceman/commsmiddleware/cars/fuelBased/FuelBasedCommand.java:15-25 | the fuel decode stops where the prefix stopped, after each flag byte present, after each integer whose two bytes are both present, or after 17 bytes |
| `FuelBased.FuelExtendsBase` | java/pt/iceman/commsmiddleware/cars/fuelBased/FuelBasedCommand.java:15 | the embedded prefix equals what `BaseCommand` decodes from the same bytes |
| `FuelBased.FuelFieldOffsets` | java/pt/iceman/commsmiddleware/cars/fuelBased/FuelBasedCommand.java:17-25 | oilPressureLow iff byte 9 is 0x7F, sparkPlugOn iff byte 10 is 0x7F; rpm, fuelLevel and engineTemperature are the little-endian values at 11..12, 13..14 and 15..16, each in 0..65535 and unclamped |
| `FuelBased.FuelUnderflow` | java/pt/iceman/commsmiddleware/cars/fuelBased/FuelBasedCommand.java:15-25 | a record is produced exactly when 17 bytes remain; with fewer there is no record, and the cursor stops short of 17 bytes and within the limit |
| `FuelBased.FuelReadsOnlyPrefix` | java/pt/iceman/commsmiddleware/cars/fuelBased/FuelBasedCommand.java:14-26 | the record depends only on the 17 bytes at the position |
| `FuelBased.FuelLayoutWidth` | java/pt/iceman/commsmiddleware/cars/fuelBased/FuelBasedCommand.java:15-25 | the reads cover 9 + 1 + 1 + 2 + 2 + 2 = 17 bytes |
| `Ev.NewElectricBased` | java/pt/iceman/commsmiddleware/cars/ev/ElectricBased.java:10-14 | the result is the wire-format decode of the bytes at the position; the cursor moves by 11 on success, and on underflow by the widths of the reads that fit |
| `Ev.ElectricStops` | java/pt/iceman/commsmiddleware/cars/ev/ElectricBased.java:11-13 | the electric decode stops where the prefix stopped, after 9 bytes if the battery level's two bytes are not both there, or after 11 bytes |
| `Ev.ElectricExtendsBase` | java/pt/iceman/commsmiddleware/cars/ev/ElectricBased.java:11 | the embedded prefix equals what `BaseCommand` decodes from the same bytes |
| `Ev.ElectricFieldOffsets` | java/pt/iceman/commsmiddleware/cars/ev/ElectricBased.java:13 | batteryLevelPercentage is `b9 + 256 * b10`, anywhere in 0..65535, not clamped to a percentage |
| `Ev.ElectricUnderflow` | java/pt/iceman/commsmiddleware/cars/ev/ElectricBased.java:11-13 | a record is produced exactly when 11 bytes remain; with fewer there is no record, and the cursor stops short of 11 bytes and within the limit |
| `Ev.ElectricReadsOnlyPrefix` | java/pt/iceman/commsmiddleware/cars/ev/ElectricBased.java:11-13 | the record depends only on the 11 bytes at the position; bytes after offset 10 are never read |
| `Ev.ElectricLayoutWidth` | java/pt/iceman/commsmiddleware/cars/ev/ElectricBased.java:11-13 | the reads cover 9 + 2 = 11 bytes |
| `Ev.ElectricExample` | java/pt/iceman/commsmiddleware/cars/ev/ElectricBased.java:10-14 | the frame `7F 00 00 00 00 00 00 64 00 32 00` gives battery12vNotCharging true, every other flag false, speed 100 and battery level 50 |

## Left out

- `java.nio.ByteBuffer` beyond a position, a limit, `get()` and `get(byte[])`. Byte order, mark/reset, direct versus heap storage and writes are not modelled, because the decoders use none of them.
- The getters of the three classes. They are the record fields.
- Java inheritance and the `protected` access of `parseIntValue`. They are modelled as composition and as a module-level method.
- Choosing between a fuel and an electric frame, transport and logging. None of them is in these classes.
- Concurrent use of one buffer. The decoders are single-threaded and do not synchronise.
