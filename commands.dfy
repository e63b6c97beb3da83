/** The SEN5x command set: each command's wire opcode, its execution time and
    whether the sensor accepts it while periodic measurement is running. */
module Commands {
  import opened Bits

  datatype Command =
    | StartMeasurement        // start periodic measurement
    | StopMeasurement         // stop periodic measurement, back to idle mode
    | GetReadDataReadyStatus  // is new measurement data ready for read-out?
    | GetSerialNumber         // read the chip's serial number
    | ReadMeasurement         // read the measured values
    | Reinit                  // reload the user settings from EEPROM
    | StartFanCleaning        // start the fan cleaning; measurement mode only
  {
    /** The opcode, the execution time in milliseconds and whether the command
        may be sent during measurement. */
    function AsTuple(): (r: (u16, u32, bool))
      ensures r.1 in {20, 50, 100, 200}
      ensures r.2 <==> this in {StopMeasurement, GetReadDataReadyStatus, ReadMeasurement, StartFanCleaning}
    {
      match this
      case StartMeasurement => (0x0021, 50, false)
      case StopMeasurement => (0x0104, 200, true)
      case GetReadDataReadyStatus => (0x0202, 20, true)
      case GetSerialNumber => (0xD033, 20, false)
      case ReadMeasurement => (0x03C4, 20, true)
      case Reinit => (0xD304, 100, false)
      case StartFanCleaning => (0x5607, 20, true)
    }

    /** The 16-bit opcode the command is sent as. */
    function Opcode(): (r: u16) { AsTuple().0 }
    /** How long the sensor needs to execute the command, in milliseconds. */
    function ExecutionMs(): (r: u32) { AsTuple().1 }
  }

  /** The table agrees with the opcodes and execution times of the SEN5x datasheet. */
  lemma DatasheetTable()
    ensures StartMeasurement.AsTuple() == (0x0021, 50, false)
    ensures StopMeasurement.AsTuple() == (0x0104, 200, true)
    ensures GetReadDataReadyStatus.AsTuple() == (0x0202, 20, true)
    ensures GetSerialNumber.AsTuple() == (0xD033, 20, false)
    ensures ReadMeasurement.AsTuple() == (0x03C4, 20, true)
    ensures Reinit.AsTuple() == (0xD304, 100, false)
    ensures StartFanCleaning.AsTuple() == (0x5607, 20, true)
  {
  }

  /** No two commands share an opcode. */
  lemma OpcodeIdentifiesCommand(c: Command, d: Command)
    ensures c.Opcode() == d.Opcode() <==> c == d
  {
  }

  /** Stopping the measurement takes longest; every other command is faster. */
  lemma StopMeasurementIsSlowest(c: Command)
    ensures 0 < c.ExecutionMs() <= StopMeasurement.ExecutionMs() == 200
    ensures c != StopMeasurement ==> c.ExecutionMs() < StopMeasurement.ExecutionMs()
  {
  }

  /** The two bytes a command is sent as determine the command. */
  lemma WireBytesIdentifyCommand(c: Command, d: Command)
    ensures ToBeBytes(c.Opcode()) == ToBeBytes(d.Opcode()) <==> c == d
  {
    if ToBeBytes(c.Opcode()) == ToBeBytes(d.Opcode()) {
      BeBytesRoundTrip(c.Opcode());
      BeBytesRoundTrip(d.Opcode());
      OpcodeIdentifiesCommand(c, d);
    }
  }
}
