/** The SEN5x sensor handle: it sends commands over I2C, waits for them to
    execute and reads back their checksum-protected responses. */
module Sen5x {
  import opened Bits
  import opened Commands
  import opened Hardware
  import opened Frames

  /** The default I2C address of the sensor. */
  const DefaultAddress: u8 := 0x69

  /** What every operation of the driver returns: a value, or the bus error
      that stopped it. */
  datatype Result<+T> = Ok(value: T) | Err(error: BusError) {
    predicate IsFailure() { Err? }

    function PropagateFailure<U>(): Result<U>
      requires Err?
    {
      Err(error)
    }

    function Extract(): T
      requires Ok?
    {
      value
    }

    /** The same result without its value. */
    function Unit(): (r: Result<()>) {
      if Ok? then Ok(()) else Err(error)
    }
  }

  /** The result of a bus transfer with the given outcome. */
  function ResultOf(o: Outcome): (r: Result<()>)
    ensures r.Ok? <==> o.Pass?
    ensures o.Fail? ==> r.error == o.error
  {
    match o
    case Pass => Ok(())
    case Fail(e) => Err(e)
  }

  /** The outcome of a bus transfer that ended with `r`. */
  function OutcomeOf(r: Result<()>): (o: Outcome)
    ensures ResultOf(o) == r
  {
    match r
    case Ok(()) => Pass
    case Err(e) => Fail(e)
  }

  /** The events of sending `cmd` to `addr` when the send ends with `r`: the
      write of the opcode, high byte first, then, only if it succeeded, the wait
      for the command's execution time. */
  ghost function CommandEvents(addr: u8, cmd: Command, r: Result<()>): (ev: seq<Event>)
  {
    [Event.Write(addr, ToBeBytes(cmd.Opcode()), OutcomeOf(r))]
      + (if r.Ok? then [Event.Delay(cmd.ExecutionMs())] else [])
  }

  /** `ev` are the events of a command that reads `n` bytes from `addr` and
      ends with `r`: either the write failed and nothing else happened, or the
      write succeeded, the execution time was waited and one read of `n` bytes
      from the same address followed, whose outcome is the result. */
  ghost predicate ReadCommandEvents(ev: seq<Event>, addr: u8, cmd: Command, n: nat, r: Result<()>)
  {
    || (r.Err? && ev == CommandEvents(addr, cmd, r))
    || (|ev| == 3 && ev[..2] == CommandEvents(addr, cmd, Ok(()))
        && ev[2].Read? && ev[2].addr == addr && |ev[2].data| == n && r == ResultOf(ev[2].outcome))
  }

  /** A command is one write of the two opcode bytes; the wait follows exactly
      when the write succeeded, and lasts the command's execution time. */
  lemma CommandEventsShape(addr: u8, cmd: Command, r: Result<()>)
    ensures var ev := CommandEvents(addr, cmd, r);
      |ev| == (if r.Ok? then 2 else 1)
      && ev[0].Write? && ev[0].addr == addr && |ev[0].bytes| == 2
      && FromBeBytes(ev[0].bytes[0], ev[0].bytes[1]) == cmd.Opcode()
      && (r.Ok? ==> ev[1] == Event.Delay(cmd.ExecutionMs()) && ev[1].ms > 0)
  {
    StopMeasurementIsSlowest(cmd);
  }

  /** A read command reads only after a successful write: a failed write ends
      the command with that write's error, and otherwise there is exactly one
      read, of `n` bytes, from the address written to. */
  lemma ReadCommandReadsAfterWrite(ev: seq<Event>, addr: u8, cmd: Command, n: nat, r: Result<()>)
    requires ReadCommandEvents(ev, addr, cmd, n, r)
    ensures ev[0].Write? && ev[0].addr == addr
    ensures ev[0].outcome.Fail? ==> |ev| == 1 && r == Err(ev[0].outcome.error)
    ensures ev[0].outcome.Pass? ==>
      (|ev| == 3 && ev[1] == Event.Delay(cmd.ExecutionMs()) && ev[2].Read? && ev[2].addr == addr && |ev[2].data| == n)
    ensures (exists i | 0 <= i < |ev| :: ev[i].Read?) <==> ev[0].outcome.Pass?
  {
    if ev[0].outcome.Pass? {
      assert ev[2].Read?;
    }
  }

  /** One SEN5x on an I2C bus. */
  class Sen5x {
    /** The bus and the delay provider, owned by this handle. */
    const hal: Hal
    /** Whether periodic measurement has been started. */
    var isRunning: bool
    /** The sensor's I2C address. */
    var address: u8

    /** A handle for a sensor at the default address. */
    constructor New(hal: Hal)
      ensures this.hal == hal && !isRunning && address == DefaultAddress
    {
      this.hal := hal;
      isRunning := false;
      address := DefaultAddress;
    }

    /** A handle for a sensor at `address`. */
    constructor WithI2cAddress(hal: Hal, address: u8)
      ensures this.hal == hal && !isRunning && this.address == address
    {
      this.hal := hal;
      isRunning := false;
      this.address := address;
    }

    /** Start periodic measurement; the handle counts as running once the
        command was sent. */
    method StartMeasurement() returns (r: Result<()>)
      modifies this, hal
      ensures hal.trace == old(hal.trace) + CommandEvents(old(address), Command.StartMeasurement, r)
      ensures isRunning == (r.Ok? || old(isRunning))
      ensures address == old(address)
    {
      var _ :- WriteCommand(Command.StartMeasurement);
      isRunning := true;
      r := Ok(());
    }

    /** Reload the sensor's user settings from its EEPROM. */
    method Reinit() returns (r: Result<()>)
      modifies hal
      ensures hal.trace == old(hal.trace) + CommandEvents(address, Command.Reinit, r)
    {
      var _ :- WriteCommand(Command.Reinit);
      r := Ok(());
    }

    /** Read the 48-bit serial number. */
    method SerialNumber() returns (r: Result<u64>)
      modifies hal
      ensures old(hal.trace) <= hal.trace
      ensures var ev := hal.trace[|old(hal.trace)|..];
        ReadCommandEvents(ev, address, Command.GetSerialNumber, 9, r.Unit())
        && (r.Ok? ==> r.value == SerialNumberOf(ev[2].data))
    {
      var buf := new u8[9](_ => 0);
      var _ :- DelayedReadCmd(Command.GetSerialNumber, buf);
      r := Ok(SerialNumberOf(buf[..]));
    }

    /** Read one measurement, converted to physical units. */
    method Measurement() returns (r: Result<Reading>)
      modifies hal
      ensures old(hal.trace) <= hal.trace
      ensures var ev := hal.trace[|old(hal.trace)|..];
        ReadCommandEvents(ev, address, Command.ReadMeasurement, 24, r.Unit())
        && (r.Ok? ==> r.value == Convert(RawMeasurementOf(ev[2].data)))
    {
      var buf := new u8[24](_ => 0);
      var _ :- DelayedReadCmd(Command.ReadMeasurement, buf);
      r := Ok(Convert(RawMeasurementOf(buf[..])));
    }

    /** Whether new measurement data can be read out. */
    method DataReadyStatus() returns (r: Result<bool>)
      modifies hal
      ensures old(hal.trace) <= hal.trace
      ensures var ev := hal.trace[|old(hal.trace)|..];
        ReadCommandEvents(ev, address, Command.GetReadDataReadyStatus, 3, r.Unit())
        && (r.Ok? ==> r.value == DataReadyOf(ev[2].data))
    {
      var buf := new u8[3](_ => 0);
      var _ :- DelayedReadCmd(Command.GetReadDataReadyStatus, buf);
      r := Ok(DataReadyOf(buf[..]));
    }

    /** Send `cmd` and wait for its execution time. Whether the command is
        allowed during measurement is not checked. */
    method WriteCommand(cmd: Command) returns (r: Result<()>)
      modifies hal
      ensures hal.trace == old(hal.trace) + CommandEvents(address, cmd, r)
    {
      var (command, delay, _) := cmd.AsTuple();
      var _ :- WriteCommandU16(address, command);
      hal.DelayMs(delay);
      r := Ok(());
    }

    /** Send `cmd`, wait for its execution time, then read its response into
        `data`. */
    method DelayedReadCmd(cmd: Command, data: array<u8>) returns (r: Result<()>)
      requires data.Length % 3 == 0
      modifies hal, data
      ensures old(hal.trace) <= hal.trace
      ensures var ev := hal.trace[|old(hal.trace)|..];
        ReadCommandEvents(ev, address, cmd, data.Length, r)
        && (if |ev| == 3 then data[..] == ev[2].data else data[..] == old(data[..]))
    {
      ghost var before := hal.trace;
      r := WriteCommand(cmd);
      if r.Err? {
        assert hal.trace[|before|..] == CommandEvents(address, cmd, r);
        return;
      }
      r := ReadWordsWithCrc(address, data);
      ghost var ev := hal.trace[|before|..];
      assert ev == CommandEvents(address, cmd, Ok(())) + [Event.Read(address, data[..], OutcomeOf(r))];
      assert ev[..2] == CommandEvents(address, cmd, Ok(()));
    }

    /** Write `cmd` to the device at `address`, high byte first. */
    method WriteCommandU16(address: u8, cmd: u16) returns (r: Result<()>)
      modifies hal
      ensures hal.trace == old(hal.trace) + [Event.Write(address, ToBeBytes(cmd), OutcomeOf(r))]
    {
      var o := hal.Write(address, ToBeBytes(cmd));
      r := ResultOf(o);
    }

    /** Fill `data` from the device at `addr`. The length must be a whole
        number of triplets; the checksum bytes are not checked, so the read
        succeeds exactly when the bus transfer does, whatever bytes arrive. */
    method ReadWordsWithCrc(addr: u8, data: array<u8>) returns (r: Result<()>)
      requires data.Length % 3 == 0
      modifies hal, data
      ensures hal.trace == old(hal.trace) + [Event.Read(addr, data[..], OutcomeOf(r))]
    {
      var o := hal.Read(addr, data);
      r := ResultOf(o);
    }
  }

  /** The serial-number test of the driver, run against any bus: a new handle
      sends GetSerialNumber (bytes D0 33) to 0x69 and reads nine bytes there;
      when the device sends BE EF 92 three times the serial is 0xBEEFBEEFBEEF. */
  method SerialNumberTest(hal: Hal) returns (r: Result<u64>)
    modifies hal
    ensures old(hal.trace) <= hal.trace
    ensures var ev := hal.trace[|old(hal.trace)|..];
      ReadCommandEvents(ev, 0x69, Command.GetSerialNumber, 9, r.Unit())
      && ev[0].bytes == [0xD0, 0x33]
      && (r.Ok? && ev[2].data == SampleSerialFrame() ==> r.value == 0xBEEF_BEEF_BEEF)
  {
    var sensor := new Sen5x.New(hal);
    r := sensor.SerialNumber();
    ghost var ev := hal.trace[|old(hal.trace)|..];
    ReadCommandReadsAfterWrite(ev, 0x69, Command.GetSerialNumber, 9, r.Unit());
    assert ToBeBytes(0xD033) == [0xD0, 0x33];
    if r.Ok? && ev[2].data == SampleSerialFrame() {
      SerialNumberExample();
    }
  }

  /** The measurement test of the driver, run against any bus: a new handle
      sends ReadMeasurement (bytes 03 C4) to 0x69 and reads 24 bytes there;
      when the device sends the sample frame, pm2.5 is 2.2, temperature 22.405
      and humidity 55.14. */
  method MeasurementTest(hal: Hal) returns (r: Result<Reading>)
    modifies hal
    ensures old(hal.trace) <= hal.trace
    ensures var ev := hal.trace[|old(hal.trace)|..];
      ReadCommandEvents(ev, 0x69, Command.ReadMeasurement, 24, r.Unit())
      && ev[0].bytes == [0x03, 0xC4]
      && (r.Ok? && ev[2].data == SampleFrame()
          ==> r.value.pm2_5 == 2.2 && r.value.temperature == 22.405 && r.value.humidity == 55.14)
  {
    var sensor := new Sen5x.New(hal);
    r := sensor.Measurement();
    ghost var ev := hal.trace[|old(hal.trace)|..];
    ReadCommandReadsAfterWrite(ev, 0x69, Command.ReadMeasurement, 24, r.Unit());
    assert ToBeBytes(0x03C4) == [0x03, 0xC4];
    if r.Ok? && ev[2].data == SampleFrame() {
      MeasurementExample();
    }
  }
}
