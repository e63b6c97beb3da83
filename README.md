# SEN5x driver: command table and I2C transaction engine

This project is a Dafny model of the protocol core of a Rust driver for the
Sensirion SEN5x environmental sensor. The sensor measures particulate matter,
humidity, temperature, VOC and NOx, and talks over I2C. The model covers:

- **the command table** (`commands.dfy`, module `Commands`). There are seven
  commands. Each one maps to a fixed 16-bit opcode, an execution time in
  milliseconds, and a flag that says whether the sensor accepts it during
  periodic measurement.
- **the sensor handle** (`sen5x.dfy`, module `Sen5x`). This is class
  `Sen5x`, with fields `address` and `isRunning`. Its methods send a command
  as two big-endian opcode bytes, wait for the command's execution time, and
  for reading commands, read a response of 3-byte triplets (two data bytes
  and one checksum byte) into a buffer, filled in place.
- **the response decoders** (`frames.dfy`, module `Frames`):
  - the 48-bit serial number, built by shifting and OR-ing six data bytes;
  - the data-ready flag: the low 11 bits of a big-endian status word;
  - the eight raw measurement words, and their exact scaling to physical
    units.
- **integer types and bit operations** (`bits.dfy`, module `Bits`):
  - `u8`, `u16`, `u32` and `u64` as integer subset types;
  - `&` and `|` defined on naturals, digit by digit, and 64-bit `<<` as
    multiplication by `2^k` modulo `2^64`;
  - `to_be_bytes` and `from_be_bytes` on 16-bit words.
- **the environment** (`hardware.dfy`, module `Hardware`). Class `Hal` stands
  for the I2C bus and the delay provider. It records every call in a ghost
  trace of `Write(addr, bytes, outcome)`, `Read(addr, data, outcome)` and
  `Delay(ms)` events. Every bus transfer may fail with any error, and a read
  may deliver any bytes. So the driver's contracts hold for every behaviour
  of the bus.

What is proved includes:

- the exact command table;
- that opcodes, and the two bytes each one is sent as, identify their
  command;
- that OR-ing the shifted bytes is adding them, and that masking with
  `2^k - 1` is taking the remainder modulo `2^k`;
- round trips between the serial-number and measurement decoders and a frame
  encoder, in both directions, so each of these two decoders reads every data
  byte and no checksum byte;
- that the data-ready decoder looks only at the low 11 bits of the status
  word, and ignores its five high bits and the checksum byte;
- the worked examples of the source's tests;
- the order of bus events for every driver operation, including the error
  short-circuit: a failed write is never followed by a delay or a read.

`read_words_with_crc` performs no checksum check: the `crc8::validate` call
at `src/sen5x.rs:139` is commented out, so a read succeeds exactly when the
bus transfer does, whatever bytes arrive.

## Model

| member | source | states |
|---|---|---|
| `Bits.ToBeBytes` | src/sen5x.rs:127 | a 16-bit word becomes two bytes, high byte first: 256 times the first plus the second is the word |
| `Bits.FromBeBytes` | src/sen5x.rs:104 | the word built from two bytes has the first byte as its high byte and the second as its low byte |
| `Bits.BeBytesRoundTrip` | src/sen5x.rs:127 | splitting a word into big-endian bytes and joining them gives the word back, for every 16-bit word and so every opcode |
| `Bits.BeBytesRoundTripBytes` | src/sen5x.rs:104 | joining two bytes and splitting the word again gives the same two bytes |
| `Bits.And` | src/sen5x.rs:107 | bitwise AND on naturals, never larger than either operand |
| `Bits.Or` | src/sen5x.rs:64-69 | bitwise OR on naturals, at least either operand and at most their sum |
| `Bits.Shl64` | src/sen5x.rs:64-68 | a 64-bit left shift drops the bits shifted past bit 63; when nothing is dropped it multiplies by 2^k |
| `Bits.AndLowMask` | src/sen5x.rs:107 | AND with `2^k - 1` keeps exactly the k low bits: the result is the remainder modulo 2^k |
| `Bits.OrDisjoint` | src/sen5x.rs:64-69 | OR of a multiple of 2^k with a value below 2^k is their sum |
| `Commands.Command.AsTuple` | src/commands.rs:23-33 | each command's execution time is one of 20, 50, 100 and 200 ms, and the "allowed while running" flag is true exactly for StopMeasurement, GetReadDataReadyStatus, ReadMeasurement and StartFanCleaning |
| `Commands.DatasheetTable` | src/commands.rs:25-31 | the seven (opcode, delay, flag) triples, e.g. StartMeasurement (0x0021, 50, false) and StopMeasurement (0x0104, 200, true) |
| `Commands.OpcodeIdentifiesCommand` | src/commands.rs:25-31 | two commands have the same opcode exactly when they are the same command |
| `Commands.StopMeasurementIsSlowest` | src/commands.rs:26 | every delay is positive and at most 200 ms, and StopMeasurement is the only command with the largest delay |
| `Commands.WireBytesIdentifyCommand` | src/sen5x.rs:126-129 | two commands are sent as the same two bytes exactly when they are the same command |
| `Hardware.Hal.Write` | src/sen5x.rs:127 | a bus write appends one Write event with its address, its bytes and how it ended, which may be any error |
| `Hardware.Hal.Read` | src/sen5x.rs:138 | a bus read appends one Read event with its address, the bytes left in the buffer and how it ended |
| `Hardware.Hal.DelayMs` | src/sen5x.rs:115 | a delay appends one Delay event and cannot fail |
| `Frames.FrameAt` | src/sen5x.rs:78 | in a frame, triplet i holds word i high byte first, followed by checksum byte i |
| `Frames.FrameOfParts` | src/sen5x.rs:134-137 | any buffer whose length is a multiple of 3 is the frame of its data words and checksum bytes |
| `Frames.WordsOfFrame` | src/sen5x.rs:134-137 | the data words and checksum bytes of a frame are the ones it was built from |
| `Frames.SerialNumberOf` | src/sen5x.rs:64-69 | the serial number is b0·2^40 + b1·2^32 + b3·2^24 + b4·2^16 + b6·2^8 + b7, below 2^48 |
| `Frames.SerialBitsValue` | src/sen5x.rs:64-69 | the shift-and-OR expression equals this weighted sum, because the shifted bytes do not overlap |
| `Frames.SerialNumberRoundTrip` | src/sen5x.rs:61-72 | decoding the frame of any 48-bit serial number, with any checksum bytes, gives that serial number |
| `Frames.SerialNumberWords` | src/sen5x.rs:64-69 | the serial number split into three 16-bit words gives the frame's data words |
| `Frames.SerialNumberDeterminesFrame` | src/sen5x.rs:61-72 | the serial number and the checksum bytes rebuild the whole 9-byte frame, so no data byte is lost |
| `Frames.SerialNumberIgnoresCrc` | src/sen5x.rs:64-69 | bytes 2, 5 and 8 do not affect the serial number |
| `Frames.SerialNumberExample` | src/sen5x.rs:159-169 | the frame BE EF 92 repeated three times decodes to 0xBEEFBEEFBEEF |
| `Frames.StatusMaskValue` | src/sen5x.rs:107 | masking the status word b0·256 + b1 with 0x7FF gives the word mod 2^11, which is (b0 mod 8)·256 + b1 |
| `Frames.DataReadyOf` | src/sen5x.rs:104-107 | the status is ready exactly when (b0·256 + b1) mod 2^11 is not 0, that is when b0 mod 8 or b1 is not 0 |
| `Frames.DataReadyIgnoresHighBits` | src/sen5x.rs:106-107 | readiness depends only on bits 0 to 10 of the status word |
| `Frames.RawMeasurementOf` | src/sen5x.rs:79-86 | the eight decoded values, in the order pm1.0, pm2.5, pm4.0, pm10.0, humidity, temperature, VOC, NOx, are the frame's eight data words |
| `Frames.RawMeasurementWords` | src/sen5x.rs:78-86 | raw word i is buf[3i]·256 + buf[3i+1] for i = 0..7, in the order pm1.0, pm2.5, pm4.0, pm10.0, humidity, temperature, VOC, NOx |
| `Frames.MeasurementRoundTrip` | src/sen5x.rs:78-86 | decoding the frame of any eight raw values, with any checksum bytes, gives those values |
| `Frames.MeasurementDeterminesFrame` | src/sen5x.rs:78-86 | the decoded values and the checksum bytes rebuild the whole 24-byte frame |
| `Frames.MeasurementIgnoresCrc` | src/sen5x.rs:78 | the checksum positions 3i+2 do not affect the decoded values |
| `Frames.Convert` | src/sen5x.rs:88-97 | the particulate matter, VOC and NOx values are the raw words divided by 10, humidity by 100 and temperature by 200, exactly |
| `Frames.MeasurementExample` | src/sen5x.rs:182-195 | the sample frame gives raw pm2.5 = 22, humidity = 5514 and temperature = 4481, that is 2.2, 55.14 and 22.405 |
| `Sen5x.ResultOf` | src/sen5x.rs:127-128 | a bus transfer's result is Ok exactly when the transfer passed, and otherwise carries the bus error unchanged |
| `Sen5x.OutcomeOf` | src/sen5x.rs:127-128 | the outcome recorded for a result gives that result back |
| `Sen5x.CommandEventsShape` | src/sen5x.rs:112-117 | sending a command is one write of its two opcode bytes to the address, followed by one delay of its positive execution time exactly when the write succeeded |
| `Sen5x.ReadCommandReadsAfterWrite` | src/sen5x.rs:120-124 | a read command reads if and only if its write succeeded; after a failed write it ends with that write's error; otherwise the write, the delay and one read of exactly the buffer's length all use the same address |
| `Sen5x.Sen5x.New` | src/sen5x.rs:28-35 | a new handle is not running and uses address 0x69 |
| `Sen5x.Sen5x.WithI2cAddress` | src/sen5x.rs:38-45 | a new handle is not running and uses the given address |
| `Sen5x.Sen5x.StartMeasurement` | src/sen5x.rs:48-52 | sends StartMeasurement; the handle is running afterwards if the command was sent, and otherwise keeps its old flag; the address does not change |
| `Sen5x.Sen5x.Reinit` | src/sen5x.rs:55-58 | sends Reinit and changes neither the running flag nor the address |
| `Sen5x.Sen5x.SerialNumber` | src/sen5x.rs:61-72 | a 9-byte read command; on success the result is the serial number decoded from the bytes read |
| `Sen5x.Sen5x.Measurement` | src/sen5x.rs:75-98 | a 24-byte read command; on success the result is the scaled measurement decoded from the bytes read |
| `Sen5x.Sen5x.DataReadyStatus` | src/sen5x.rs:101-109 | a 3-byte read command; on success the result is the ready flag decoded from the bytes read |
| `Sen5x.Sen5x.WriteCommand` | src/sen5x.rs:112-117 | exactly one write of the opcode's big-endian bytes to the handle's address, then the command's delay only if the write succeeded; a failed write's error is returned |
| `Sen5x.Sen5x.DelayedReadCmd` | src/sen5x.rs:120-124 | write, delay and read in that order, or the write alone when it fails, leaving the buffer untouched; on a read the buffer holds the bytes read |
| `Sen5x.Sen5x.WriteCommandU16` | src/sen5x.rs:126-129 | one bus write of the word's two big-endian bytes to the given address; its result is the write's outcome |
| `Sen5x.Sen5x.ReadWordsWithCrc` | src/sen5x.rs:133-141 | needs a length that is a multiple of 3; does one bus read into the buffer, and succeeds exactly when the read does, whatever the checksum bytes |
| `Sen5x.SerialNumberTest` | src/sen5x.rs:154-171 | against any bus, a new handle writes D0 33 to 0x69, then reads 9 bytes from 0x69 only if that write succeeded. When the device sends BE EF 92 three times, a successful result is 0xBEEFBEEFBEEF |
| `Sen5x.MeasurementTest` | src/sen5x.rs:175-198 | against any bus, a new handle writes 03 C4 to 0x69, then reads 24 bytes from 0x69 only if that write succeeded. When the device sends the sample frame, a successful result has pm2.5 2.2, temperature 22.405 and humidity 55.14 |

## Left out

- Floating-point scaling: `measurement` divides `f32` values, and the source's test compares the rounded `f32` results. `Frames.Convert` computes the exact `real` quotients instead, and `Frames.MeasurementExample` states the test's values exactly. `f32` rounding is not modelled.
- The `Sen5xData` struct of `src/types.rs` is modelled by the datatype `Frames.Reading`, whose fields are `real` instead of `f32`.
- The checksum algorithm (CRC-8): the driver never calls it, since the call at `src/sen5x.rs:139` is commented out. So there is no checksum-mismatch error.
- The embedded-hal `I2c` and `DelayNs` traits are left out. Class `Hardware.Hal` replaces them. It merges the bus and the delay provider into one object, so that all their calls land in one trace. The transport's error type is modelled by one opaque datatype, `Hardware.BusError`, instead of a type parameter.
- The mock-based test harness is left out. `Sen5x.SerialNumberTest` and `Sen5x.MeasurementTest` replay the two tests against any `Hal`. Instead of a mock that insists on exact transactions, their contracts describe the trace. `mock.done()` and the `unwrap` panics are not modelled.
- `Sen5x.Sen5x.DelayedReadCmd`: the multiple-of-3 length is a precondition, like the `assert!` in `read_words_with_crc`. In the source, a wrong length panics only after the write and the delay have happened. The model excludes that call instead of modelling the partial trace before the panic.
- There are no stop-measurement or fan-cleaning methods, and the "allowed while running" flag is never checked. The source has no such code either: `write_command` ignores the flag.
- The running flag is never cleared, as in the source.
- `src/lib.rs` holds only module declarations and re-exports.
- The address is any 8-bit value. The source does not restrict it to 7 bits.
