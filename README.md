# Aquark chlorinator reader — a Dafny model

This project models `read_v1.py`, the Modbus RTU reader for an Aquark
"Mr. Pure" salt chlorinator. The reader has four parts.

- **Sensor pass** (`read_sensor_data`): it reads five input registers of slave 8 and decodes each word:
  - ORP is a signed 16-bit value;
  - pH is the word over 100;
  - EC is the raw word;
  - pool temperature is signed, in tenths of a degree;
  - chlorine production is the raw word.

  Every field is read under its own error guard, so a reply that fails only removes that one field from the result dict.
- **Status pass** (`read_system_status`): it reads five discrete inputs. Each bit is stored under a key made from its description, lower-cased with spaces turned into `_`.
- **Connectivity probe** (`test_basic_connectivity`): it reads holding register 0x0001 and, only if that read fails, holding register 0x0000. Either answer counts as success.
- **Main loop** (`main`): it connects and probes, then runs one cycle after another:
  - every cycle runs the sensor pass;
  - every cycle whose counter is a multiple of ten (the first one included) also runs the status pass;
  - every sensor entry is published to MQTT under `pool/<key>`.

The serial bus is an oracle, `Modbus.Device`. It gives the reply to the k-th request put on the wire. `Modbus.Client` records every request it sends in `log`.

Replies come in two kinds:
- `Reply.Error` stands both for a reply whose `isError()` holds and for an exception raised by the call.
- A reply with no register or bit to index is also "no reading": the source's `registers[0]` raises, and its handler swallows the error.

Python dicts are insertion-ordered `seq`s of key/value pairs (`OrderedMap`), with Python's assignment semantics.

Each pass has a reference definition, `Passes.Entries`, over a register catalog. The imperative passes, one written straight-line and one written as a loop, are proved to build exactly that dict. Lemmas then state what the dict holds.

`Poller.Run` is `main` for a run that the operator interrupts after `cycles` whole cycles. Its contract gives the entire bus traffic and everything published, as functions of the device (`Schedule`, `Published`). Lemmas about those functions state:
- when the status pass runs;
- that only sensor readings are published.

Modules, one per file: `Wrappers`, `Modbus`, `OrderedMap`, `Decoding`, `Passes`, `Sensors`, `Status`, `Probe`, `Mqtt`, `Poller`.

## Model

| member | source | states |
|---|---|---|
| Decoding.ToSigned16 | read_v1.py:44-48 | the sign-corrected word lies in [-32768, 32767] and is congruent to the raw word modulo 2^16, which determines it uniquely |
| Decoding.SignedRoundTrip | read_v1.py:44-48 | storing the sign-corrected value back into 16 bits gives the raw word |
| Decoding.UnsignedRoundTrip | read_v1.py:44-48 | every signed 16-bit value survives a trip through a register word |
| Decoding.SignedExtremes | read_v1.py:45-48 | 32767 stays 32767, 32768 becomes -32768 and 65535 becomes -1, so there is no saturation |
| Decoding.PhValue | read_v1.py:61-62 | pH is in [0, 655.35], and 100 times pH is exactly the raw word |
| Decoding.PoolTempValue | read_v1.py:89-94 | the source's two branches equal the sign-corrected word over 10, which lies in [-3276.8, 3276.7] |
| Decoding.DecodeWordDetermines | read_v1.py:43-108 | each field's decoded word gives the word back: a signed ORP reading re-encodes to it, pH times 100 and temperature times 10 recover it, and EC and chlorine are the word itself |
| Decoding.DecodeReply | read_v1.py:42-43 | an error reply yields no reading, and a read yields one exactly when the reply has the expected kind and a first register or bit to index |
| Decoding.DecodeReplyValues | read_v1.py:135-136 | a stored reading comes from the first bit of a flag reply, or from the first register word decoded by the field's rule |
| Decoding.DecodeReplyKinds | read_v1.py:41-108 | a successful read never yields None; ORP, EC and chlorine give ints, pH and temperature give reals, and flags give booleans |
| Modbus.FirstRegister | read_v1.py:42-43 | `registers[0]` after the error check: nothing for an error or bit reply or for an empty register list, otherwise the first word |
| Modbus.FirstBit | read_v1.py:135-136 | `bits[0]` after the error check: nothing for an error or register reply or for an empty bit list, otherwise the first bit |
| Modbus.Client.constructor | read_v1.py:17-25 | a new client is neither connected nor closed and has sent nothing |
| Modbus.Client.Connect | read_v1.py:182 | connect succeeds exactly when the link is reachable |
| Modbus.Client.Read | read_v1.py:41 | a read puts its request on the wire after the earlier ones and returns the device's answer at that position |
| Modbus.Client.Close | read_v1.py:228 | after close, the client is closed and not connected |
| OrderedMap.Put | read_v1.py:49 | after `d[k] = v` the key is present; the dict grows by one entry exactly when the key is new |
| OrderedMap.Update | read_v1.py:137 | overwriting a present key's value keeps every key in its place |
| OrderedMap.GetDefined | read_v1.py:49 | a dict has a value for a key exactly when the key is among its keys |
| OrderedMap.GetUpdate | read_v1.py:137 | overwriting a key changes that key's value only |
| OrderedMap.PutSpec | read_v1.py:49 | `d[k] = v` reads back as v, leaves every other key unchanged, appends a new key last and keeps an existing key in its place |
| Passes.Entries | read_v1.py:37-116 | a pass dict has no more entries than there are registers, and none of its values is None |
| Passes.EntriesKeysDistinct | read_v1.py:37-116 | with distinct register keys, no key appears twice in a pass dict, as in a Python dict |
| Passes.EntriesAbsent | read_v1.py:37-116 | a key that no register carries never appears in a pass |
| Passes.EntriesGet | read_v1.py:37-116 | with distinct keys, each register's entry is the decoded reading of its own reply, and is absent when that read fails |
| Passes.EntriesKeySet | read_v1.py:37-116 | the keys of a pass are exactly the keys of the registers whose reads succeeded |
| Passes.EntryOrigin | read_v1.py:37-116 | every entry comes from a successful read of a register carrying that key, and holds that read's decoded value |
| Passes.EntriesPrefix | read_v1.py:37-116 | the entries follow catalog order: a pass over the first k registers is a prefix of the whole pass |
| Passes.PassFromSteps | read_v1.py:132-142 | guarded reads done one after another from an empty dict build exactly the reference pass |
| Passes.PassStep | read_v1.py:133-137 | one more guarded read extends the pass by that register's entry, or by nothing when the read fails |
| Passes.ReadField | read_v1.py:133-140 | one guarded read issues its request and stores the decoded reading under the field's key only when the read succeeds |
| Sensors.SensorRequestsInOrder | read_v1.py:41-105 | the sensor pass reads input registers 0, 1, 2, 3 and 5 of slave 8, one word each, in that order |
| Sensors.SensorKeysUnique | read_v1.py:49-108 | the five sensor keys are distinct |
| Sensors.SensorPassOfReads | read_v1.py:39-114 | five guarded reads, answered at consecutive bus positions and starting from an empty dict, build the reference sensor pass |
| Sensors.ReadSensorData | read_v1.py:31-116 | the five reads go on the wire in catalog order, and the returned dict is the reference pass over the device's answers to them |
| Sensors.SensorPassReadings | read_v1.py:39-114 | orp is the raw word, minus 65536 above 32767; ph is raw/100; ec and chlorine are raw; pool_temp is the signed word over 10; a field whose read failed is absent |
| Sensors.SensorPassKeys | read_v1.py:37-116 | a key is in the sensor dict exactly when it names one of the five fields and that field's read succeeded |
| Sensors.SensorPassIsolation | read_v1.py:39-114 | changing or failing one field's reply leaves every other field's entry unchanged |
| Status.Lower | read_v1.py:137 | `lower()` keeps the length, leaves no upper-case letter, and keeps each character or adds 32 to an upper-case letter's code point, giving its lower-case letter |
| Status.Replace | read_v1.py:137 | `replace` keeps the length, turns every occurrence of the character into the replacement, and keeps every other character |
| Status.StatusKey | read_v1.py:137 | the key is as long as the description; at each position a space becomes `_`, an upper-case letter becomes its lower-case letter and any other character is kept; so no space and no upper-case letter remain |
| Status.StatusKeyConcat | read_v1.py:137 | keys are derived character by character, so the key of a concatenation is the concatenation of the keys |
| Status.StatusKeyIdempotent | read_v1.py:137 | deriving a key from a key gives the key back |
| Status.NoFlowKey | read_v1.py:129-137 | "No Flow" is stored as `no_flow` |
| Status.PhRegulationKey | read_v1.py:126-137 | "pH Regulation" is stored as `ph_regulation` |
| Status.PowerSupplyKey | read_v1.py:125-137 | "Power Supply Abnormal" is stored as `power_supply_abnormal` |
| Status.OrpRegulationKey | read_v1.py:127-137 | "ORP Regulation" is stored as `orp_regulation` |
| Status.OverTemperatureKey | read_v1.py:128-137 | "Controller Over-temperature Protection" is stored as `controller_over-temperature_protection` |
| Status.StatusCatalogUnique | read_v1.py:124-130 | there are five status flags, and no two get the same key |
| Status.StatusRequestsOfCatalog | read_v1.py:132-134 | the status pass's reads are one discrete-input read per row of the address table, whatever keys the descriptions give |
| Status.StatusRequestsInOrder | read_v1.py:124-134 | the status pass reads discrete inputs 0x0000, 0x0001, 0x0002, 0x0003 and 0x0030 of slave 8, one bit each, in that order |
| Status.ReadSystemStatus | read_v1.py:118-142 | the loop issues the five reads in table order and returns the reference pass over their answers |
| Status.StatusPassReadings | read_v1.py:132-140 | each flag whose read succeeded is stored, bit unchanged, under its derived key; a flag whose read failed is absent |
| Status.StatusPassKeys | read_v1.py:132-142 | a key is in the status dict exactly when it is the derived key of a flag whose read succeeded |
| Probe.Verdict | read_v1.py:150-175 | the probe succeeds exactly when one of its two reads returns registers with a first word to index; two failed reads give false |
| Probe.ProbeRequests | read_v1.py:149-175 | the probe always reads the address register first, and reads the mode register second exactly when the first read failed |
| Probe.VerdictCases | read_v1.py:149-175 | the probe succeeds iff the address read answers, or that read fails and the mode read answers; once the address read answers, the mode reply is irrelevant |
| Probe.VerdictIgnoresValues | read_v1.py:152-169 | the register values read never change the verdict |
| Probe.TestBasicConnectivity | read_v1.py:144-175 | the probe sends exactly the requests above, and returns true exactly when one of its reads answers |
| Mqtt.Topic | read_v1.py:217 | a topic is `pool/` followed by the key itself |
| Mqtt.TopicRoundTrip | read_v1.py:217 | the key can be recovered from its topic, so distinct keys get distinct topics |
| Mqtt.Broker.constructor | read_v1.py:28-29 | the broker connection is open before anything is read, and nothing has been published |
| Mqtt.Broker.Publish | read_v1.py:218 | a publish appends one message, holding the topic and the value unchanged |
| Mqtt.Broker.Disconnect | read_v1.py:229 | after disconnect, the broker is not connected |
| Poller.PublishReadings | read_v1.py:215-219 | the publish loop sends one message per non-None entry, in dict order |
| Poller.MessagesShape | read_v1.py:215-219 | the publish loop sends at most one message per entry, never sends None, and always publishes under `pool/` |
| Poller.MessagesOfReadings | read_v1.py:215-219 | for a dict without None (every sensor dict), entry j is published as message j, on `pool/<key>` with its value unchanged |
| Poller.RunCycle | read_v1.py:204-223 | a cycle sends the sensor reads, then the status reads when its counter is a multiple of ten, and publishes the sensor readings answered from the bus position at which the cycle started |
| Poller.PollLoop | read_v1.py:201-223 | n cycles, counted from 0, issue exactly the reads in `Schedule(n)` and publish exactly `Published(n)` |
| Poller.Run | read_v1.py:177-230 | the broker connection is open on entry. If connect fails, nothing is read. If the probe fails, only the probe is read, the serial client is closed and nothing is published. Otherwise the probe is followed by the cycles' reads, every cycle's sensor readings are published, and both connections are closed. The serial link is down at the end in every case |
| Poller.ScheduleReads | read_v1.py:41-134 | every read of a run asks slave 8 for a single register or bit |
| Poller.PublishedBound | read_v1.py:215-219 | n cycles publish at most 5n messages |
| Poller.StatusPassCount | read_v1.py:202-212 | of the first n cycles, exactly ceil(n/10) run the status pass |
| Poller.ScheduleLength | read_v1.py:202-223 | n cycles put 5n sensor reads plus 5 reads per status pass on the bus |
| Poller.CycleTraffic | read_v1.py:207-212 | every cycle starts with the sensor pass, and a cycle issues a discrete-input read exactly when its counter is a multiple of ten |
| Poller.ScheduleSlot | read_v1.py:202-223 | a cycle's reads follow the reads of all earlier cycles, and are unchanged by any later cycle |
| Poller.CycleMessagesAreSensorReadings | read_v1.py:215-219 | everything a cycle publishes is a sensor reading on a sensor topic, and never None |
| Poller.PublishedOnlySensorReadings | read_v1.py:207-219 | a whole run publishes only sensor readings on sensor topics; no status flag's topic is among them, so status data is never published |
| Poller.OrpWordPublished | read_v1.py:43-49 | ORP word 0xF830 is published first, as -2000 on `pool/orp` |

Behaviour of `read_v1.py` that the model keeps:
- The MQTT client connects when the program starts (`read_v1.py:28-29`), before the serial link and the probe.
- When the serial connect fails, nothing is closed (`read_v1.py:182-184`).
- When the probe fails, only the serial client is closed. The MQTT connection stays open (`read_v1.py:189-196`).
- The probe never checks that the address register reads 8. Any answer counts (`read_v1.py:152-155`).
- The status dict is read and then dropped. It is never published (`read_v1.py:212`).

## Left out

- Construction and configuration of the serial client, RTU framing, CRC, port and baud settings (`read_v1.py:17-25`): these belong to the client library. The bus is the `Device` oracle, and `Client.reachable` is whether `connect()` succeeds.
- Broker address, keep-alive and the paho network client (`read_v1.py:28-29`): network I/O. The broker connection is open from the start, and publish appends to `Broker.published`.
- Publish failures and a broker that cannot be reached: the network is not modelled, so a publish always succeeds.
- `time.sleep(30)` and the `KeyboardInterrupt` (`read_v1.py:222-226`): timing and signals. A run is modelled as interrupted between cycles, after `cycles` whole cycles.
- Poller.Run: does not cover an interrupt that lands in the middle of a cycle, whose partial reads and publishes would be left unstated.
- Printed and logged output and float formatting: presentation only.
- The `model_names` lookup in the probe (`read_v1.py:166-167`): it only affects printed text, never the verdict.
- Decoding.PhValue: exact real division rather than IEEE-754 double division, so rounding of `raw / 100.0` is not modelled.
- Decoding.PoolTempValue: exact real division rather than IEEE-754 double division, so rounding of `/ 10.0` is not modelled.
- Status.StatusKey: lower-cases ASCII letters only, not the full Unicode case mapping of `str.lower()`. Every description in the table is ASCII.
- Status.Lower: maps the ASCII letters A-Z only, not the full Unicode case mapping of `str.lower()`. Every description in the table is ASCII.
- Other exceptions inside a guarded block, such as a failing `print`, are not modelled. Only the read call and the indexing of its result fail.
