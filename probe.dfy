/**
 * The pre-flight check (`test_basic_connectivity`): read the parallel
 * address setting and, only if that fails, the operating mode. Either
 * answer proves the bus parameters right, whatever it says.
 */
module Probe {
  import opened Wrappers
  import opened Modbus

  /** Holding register 0x0001, the parallel (bus) address setting. */
  const PARALLEL_ADDRESS_REQUEST: Request := Request(HoldingRegisters, 0x0001, 1, SLAVE_ID)

  /** Holding register 0x0000, the operating mode. */
  const MODE_REQUEST: Request := Request(HoldingRegisters, 0x0000, 1, SLAVE_ID)

  /** A probe read counts when it returns without error and has a register to show. */
  predicate Answered(r: Reply)
  {
    FirstRegister(r).Some?
  }

  /** The verdict, given the two replies the device would give. */
  function Verdict(first: Reply, second: Reply): (ok: bool)
    ensures ok <==> (first.Registers? && |first.registers| > 0) || (second.Registers? && |second.registers| > 0)
    ensures first.Error? && second.Error? ==> !ok
  {
    Answered(first) || Answered(second)
  }

  /** The probe's bus traffic: the mode register is read only after the address read failed. */
  function ProbeRequests(first: Reply): (reqs: seq<Request>)
    ensures 1 <= |reqs| <= 2 && reqs[0] == PARALLEL_ADDRESS_REQUEST
    ensures |reqs| == 2 <==> !Answered(first)
    ensures |reqs| == 2 ==> reqs[1] == MODE_REQUEST
  {
    if Answered(first) then [PARALLEL_ADDRESS_REQUEST] else [PARALLEL_ADDRESS_REQUEST, MODE_REQUEST]
  }

  /**
   * The probe succeeds if the address register answers, or if it fails and
   * the mode register answers; the second reply matters only in that case.
   */
  lemma VerdictCases(first: Reply, second: Reply, second': Reply)
    ensures Verdict(first, second) <==> Answered(first) || (!Answered(first) && Answered(second))
    ensures Answered(first) ==> Verdict(first, second) == Verdict(first, second')
  {
  }

  /** The register values never affect the verdict: any words in place of the ones read give the same answer. */
  lemma VerdictIgnoresValues(ws1: seq<Word>, ws1': seq<Word>, ws2: seq<Word>, ws2': seq<Word>)
    requires |ws1| == |ws1'| && |ws2| == |ws2'|
    ensures Verdict(Registers(ws1), Registers(ws2)) == Verdict(Registers(ws1'), Registers(ws2'))
    ensures Verdict(Registers(ws1), Error) == Verdict(Registers(ws1'), Error)
    ensures Verdict(Error, Registers(ws2)) == Verdict(Error, Registers(ws2'))
  {
  }

  /**
   * Read the address setting; on failure, read the mode. True on the first
   * read that answers, false when neither does.
   */
  method TestBasicConnectivity(client: Client) returns (ok: bool)
    modifies client`log
    ensures var first := client.device(|old(client.log)|, PARALLEL_ADDRESS_REQUEST);
            var second := client.device(|old(client.log)| + 1, MODE_REQUEST);
            client.log == old(client.log) + ProbeRequests(first) && ok == Verdict(first, second)
  {
    var result := client.Read(PARALLEL_ADDRESS_REQUEST);
    if FirstRegister(result).Some? {
      return true;
    }
    result := client.Read(MODE_REQUEST);
    if FirstRegister(result).Some? {
      return true;
    }
    return false;
  }
}
