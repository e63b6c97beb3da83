/** The driver's environment: the I2C bus and the delay provider. Neither is part
    of the driver; each call is recorded in a ghost trace so that the driver's
    contracts can say which transactions it issues, in which order. */
module Hardware {
  import opened Bits

  /** The transport's own error value, handed back to the caller unchanged. */
  datatype BusError = BusError(code: nat)

  /** How one bus transfer ended. */
  datatype Outcome = Pass | Fail(error: BusError)

  /** One call into the environment. `data` is what the device sent: the
      contents of the read buffer once the transfer is over. */
  datatype Event =
    | Write(addr: u8, bytes: seq<u8>, outcome: Outcome)
    | Read(addr: u8, data: seq<u8>, outcome: Outcome)
    | Delay(ms: u32)

  /** The bus and the delay provider owned by one sensor handle. Every transfer
      may fail with any error, and a read may deliver any bytes; the contracts
      below fix nothing else, so the driver is verified against all of them. */
  class Hal {
    ghost var trace: seq<Event>

    /** Write `bytes` to the device at `addr`. */
    method Write(addr: u8, bytes: seq<u8>) returns (o: Outcome)
      modifies this
      ensures trace == old(trace) + [Event.Write(addr, bytes, o)]
    {
      o := *;
      trace := trace + [Event.Write(addr, bytes, o)];
    }

    /** Fill `buf` from the device at `addr`. The bytes are whatever `buf`
        holds afterwards: no contract constrains them. */
    method Read(addr: u8, buf: array<u8>) returns (o: Outcome)
      modifies this, buf
      ensures trace == old(trace) + [Event.Read(addr, buf[..], o)]
    {
      o := *;
      trace := trace + [Event.Read(addr, buf[..], o)];
    }

    /** Wait `ms` milliseconds; waiting cannot fail. */
    method DelayMs(ms: u32)
      modifies this
      ensures trace == old(trace) + [Event.Delay(ms)]
    {
      trace := trace + [Event.Delay(ms)];
    }
  }
}
