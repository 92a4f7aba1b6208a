/**
 * The sensor pass (`read_sensor_data`): five input registers of the
 * chlorinator, each read and decoded under its own error guard.
 */
module Sensors {
  import opened Wrappers
  import opened Modbus
  import opened OrderedMap
  import opened Decoding
  import opened Passes

  function InputRegister(address: Word): Request
  {
    Request(InputRegisters, address, 1, SLAVE_ID)
  }

  /** The sensor fields in the order the pass reads them. */
  const SENSOR_CATALOG: seq<Register> := [
    Register("orp", InputRegister(0x0000), SignedInt),
    Register("ph", InputRegister(0x0001), Hundredths),
    Register("ec", InputRegister(0x0002), UnsignedInt),
    Register("pool_temp", InputRegister(0x0003), SignedTenths),
    Register("chlorine", InputRegister(0x0005), UnsignedInt)
  ]

  /** The sensor pass reads input registers 0, 1, 2, 3 and 5 of slave 8, in that order. */
  lemma SensorRequestsInOrder()
    ensures Requests(SENSOR_CATALOG) == [
      Request(InputRegisters, 0, 1, 8), Request(InputRegisters, 1, 1, 8),
      Request(InputRegisters, 2, 1, 8), Request(InputRegisters, 3, 1, 8),
      Request(InputRegisters, 5, 1, 8)]
  {
  }

  lemma SensorKeysUnique()
    ensures UniqueKeys(SENSOR_CATALOG)
  {
  }

  /** Five guarded reads answered from bus position `pos` on build the reference sensor pass. */
  lemma SensorPassOfReads(device: Device, pos: nat, d1: Dict<Value>, d2: Dict<Value>, d3: Dict<Value>, d4: Dict<Value>, d5: Dict<Value>)
    requires d1 == Store(SENSOR_CATALOG[0], device(pos, SENSOR_CATALOG[0].request), [])
    requires d2 == Store(SENSOR_CATALOG[1], device(pos + 1, SENSOR_CATALOG[1].request), d1)
    requires d3 == Store(SENSOR_CATALOG[2], device(pos + 2, SENSOR_CATALOG[2].request), d2)
    requires d4 == Store(SENSOR_CATALOG[3], device(pos + 3, SENSOR_CATALOG[3].request), d3)
    requires d5 == Store(SENSOR_CATALOG[4], device(pos + 4, SENSOR_CATALOG[4].request), d4)
    ensures d5 == Entries(SENSOR_CATALOG, Answers(device, pos, Requests(SENSOR_CATALOG)))
  {
    SensorKeysUnique();
    PassFromSteps(SENSOR_CATALOG, Answers(device, pos, Requests(SENSOR_CATALOG)), [[], d1, d2, d3, d4, d5]);
  }

  /**
   * The five guarded reads, one after another. The dict holds an entry for
   * each read that succeeded, decoded by its field's rule, and the reads go
   * on the wire in catalog order.
   */
  method ReadSensorData(client: Client) returns (data: Dict<Value>)
    modifies client`log
    ensures client.log == old(client.log) + Requests(SENSOR_CATALOG)
    ensures data == Entries(SENSOR_CATALOG, Answers(client.device, |old(client.log)|, Requests(SENSOR_CATALOG)))
  {
    ghost var pos := |client.log|;
    data := [];
    data := ReadField(client, data, SENSOR_CATALOG[0]);  // ORP, input register 0x0000
    ghost var d1 := data;
    data := ReadField(client, data, SENSOR_CATALOG[1]);  // pH, 0x0001
    ghost var d2 := data;
    data := ReadField(client, data, SENSOR_CATALOG[2]);  // EC, 0x0002
    ghost var d3 := data;
    data := ReadField(client, data, SENSOR_CATALOG[3]);  // pool temperature, 0x0003
    ghost var d4 := data;
    data := ReadField(client, data, SENSOR_CATALOG[4]);  // chlorine production, 0x0005
    SensorPassOfReads(client.device, pos, d1, d2, d3, d4, data);
  }

  /**
   * What each field of a sensor pass holds: ORP is the signed word, pH the
   * word over 100, EC and chlorine the word itself, pool temperature the
   * signed word over 10; a field whose read failed is absent.
   */
  lemma SensorPassReadings(replies: seq<Reply>)
    requires |replies| == |SENSOR_CATALOG|
    ensures var d := Entries(SENSOR_CATALOG, replies);
      && Get(d, "orp") == (match FirstRegister(replies[0])
                           case Some(raw) => Some(IntValue(if raw > 32767 then raw - 65536 else raw))
                           case None => None)
      && Get(d, "ph") == (match FirstRegister(replies[1])
                          case Some(raw) => Some(RealValue(raw as real / 100.0))
                          case None => None)
      && Get(d, "ec") == (match FirstRegister(replies[2])
                          case Some(raw) => Some(IntValue(raw))
                          case None => None)
      && Get(d, "pool_temp") == (match FirstRegister(replies[3])
                                 case Some(raw) => Some(RealValue(ToSigned16(raw) as real / 10.0))
                                 case None => None)
      && Get(d, "chlorine") == (match FirstRegister(replies[4])
                                case Some(raw) => Some(IntValue(raw))
                                case None => None)
  {
    SensorKeysUnique();
    EntriesGet(SENSOR_CATALOG, replies, 0);
    EntriesGet(SENSOR_CATALOG, replies, 1);
    EntriesGet(SENSOR_CATALOG, replies, 2);
    EntriesGet(SENSOR_CATALOG, replies, 3);
    EntriesGet(SENSOR_CATALOG, replies, 4);
  }

  /** The keys of a sensor pass are exactly the fields whose reads succeeded. */
  lemma SensorPassKeys(replies: seq<Reply>)
    requires |replies| == |SENSOR_CATALOG|
    ensures forall k :: k in Keys(Entries(SENSOR_CATALOG, replies)) <==>
      exists i :: 0 <= i < 5 && SENSOR_CATALOG[i].key == k && FirstRegister(replies[i]).Some?
  {
    EntriesKeySet(SENSOR_CATALOG, replies);
    forall k ensures k in Keys(Entries(SENSOR_CATALOG, replies)) <==>
      exists i :: 0 <= i < 5 && SENSOR_CATALOG[i].key == k && FirstRegister(replies[i]).Some?
    {
      var s := set i | 0 <= i < |SENSOR_CATALOG| && DecodeReply(SENSOR_CATALOG[i].rule, replies[i]).Some? :: SENSOR_CATALOG[i].key;
      assert k in Keys(Entries(SENSOR_CATALOG, replies)) <==> k in s;
    }
  }

  /** A field's failure (or any change of its reply) leaves every other field's entry as it was. */
  lemma SensorPassIsolation(replies: seq<Reply>, replies': seq<Reply>, j: nat)
    requires |replies| == |replies'| == |SENSOR_CATALOG| && j < |SENSOR_CATALOG|
    requires forall i :: 0 <= i < |replies| && i != j ==> replies[i] == replies'[i]
    ensures forall i :: 0 <= i < |SENSOR_CATALOG| && i != j ==>
      Get(Entries(SENSOR_CATALOG, replies), SENSOR_CATALOG[i].key) ==
      Get(Entries(SENSOR_CATALOG, replies'), SENSOR_CATALOG[i].key)
  {
    SensorKeysUnique();
    forall i | 0 <= i < |SENSOR_CATALOG| && i != j
      ensures Get(Entries(SENSOR_CATALOG, replies), SENSOR_CATALOG[i].key) ==
              Get(Entries(SENSOR_CATALOG, replies'), SENSOR_CATALOG[i].key)
    {
      EntriesGet(SENSOR_CATALOG, replies, i);
      EntriesGet(SENSOR_CATALOG, replies', i);
    }
  }
}
