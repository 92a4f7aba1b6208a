/**
 * The slice of the Modbus client the reader relies on. The serial line,
 * RTU framing and CRC belong to the client library; here the bus is an
 * oracle that answers the k-th request put on the wire.
 */
module Modbus {
  import opened Wrappers

  /** A 16-bit register word, as the client library hands it out. */
  type Word = x: int | 0 <= x < 0x1_0000

  /** Bus address of the chlorinator; every request of the reader uses it. */
  const SLAVE_ID: nat := 8

  /** The three data tables the reader uses (function codes 0x02, 0x03, 0x04). */
  datatype Table = DiscreteInputs | HoldingRegisters | InputRegisters

  datatype Request = Request(table: Table, address: Word, count: nat, slave: nat)

  /**
   * What one read call comes back with. `Error` stands both for a reply
   * whose `isError()` holds and for an exception raised by the call.
   */
  datatype Reply = Error | Registers(registers: seq<Word>) | Bits(bits: seq<bool>)

  /** The device: its answer to the request sent at a given position of the bus traffic. */
  type Device = (nat, Request) -> Reply

  /**
   * `result.registers[0]` after `not result.isError()`: nothing for an error
   * reply, and nothing when there is no register to index (the indexing
   * raises, and the reader's handler swallows it).
   */
  function FirstRegister(r: Reply): (w: Option<Word>)
    ensures r.Error? || r.Bits? ==> w.None?
    ensures r.Registers? && |r.registers| > 0 ==> w == Some(r.registers[0])
    ensures r.Registers? && |r.registers| == 0 ==> w.None?
  {
    if r.Registers? && |r.registers| > 0 then Some(r.registers[0]) else None
  }

  /** `result.bits[0]` after `not result.isError()`, in the same way. */
  function FirstBit(r: Reply): (b: Option<bool>)
    ensures r.Error? || r.Registers? ==> b.None?
    ensures r.Bits? && |r.bits| > 0 ==> b == Some(r.bits[0])
    ensures r.Bits? && |r.bits| == 0 ==> b.None?
  {
    if r.Bits? && |r.bits| > 0 then Some(r.bits[0]) else None
  }

  /** The replies the device gives to `reqs` sent one after another from position `start`. */
  function Answers(device: Device, start: nat, reqs: seq<Request>): seq<Reply>
  {
    seq(|reqs|, i requires 0 <= i < |reqs| => device(start + i, reqs[i]))
  }

  /** The serial client: a link that may or may not come up, and the requests sent on it. */
  class Client {
    const device: Device
    const reachable: bool
    var connected: bool
    var closed: bool
    var log: seq<Request>

    constructor (device: Device, reachable: bool)
      ensures this.device == device && this.reachable == reachable
      ensures !connected && !closed && log == []
    {
      this.device := device;
      this.reachable := reachable;
      connected, closed, log := false, false, [];
    }

    /** `client.connect()`: true when the serial link comes up. */
    method Connect() returns (ok: bool)
      modifies this`connected
      ensures ok == reachable && connected == reachable
    {
      connected := reachable;
      ok := reachable;
    }

    /** One read call: the request goes on the wire and the device answers it. */
    method Read(req: Request) returns (r: Reply)
      modifies this`log
      ensures log == old(log) + [req]
      ensures r == device(|old(log)|, req)
    {
      r := device(|log|, req);
      log := log + [req];
    }

    /** `client.close()`. */
    method Close()
      modifies this`connected, this`closed
      ensures closed && !connected
    {
      connected, closed := false, true;
    }
  }
}
