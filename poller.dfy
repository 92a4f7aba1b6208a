/**
 * The reader's main loop (`main`): connect, probe, then poll cycle after
 * cycle. Every cycle runs the sensor pass, every tenth cycle (the first
 * included) also runs the status pass, and each sensor reading is
 * published under `pool/<key>`. The run stops after `cycles` cycles,
 * where the operator's interrupt lands.
 */
module Poller {
  import opened Wrappers
  import opened Modbus
  import opened OrderedMap
  import opened Decoding
  import opened Passes
  import opened Sensors
  import opened Status
  import opened Probe
  import opened Mqtt

  /** The status pass runs on cycles whose counter is a multiple of ten. */
  predicate StatusDue(loopCount: nat)
  {
    loopCount % 10 == 0
  }

  /** The reads of one cycle: the sensor pass, then the status pass when it is due. */
  function CycleRequests(loopCount: nat): seq<Request>
  {
    Requests(SENSOR_CATALOG) + if StatusDue(loopCount) then StatusRequests() else []
  }

  /** The reads of the first `n` cycles, counter 0 to n - 1. */
  function Schedule(n: nat): seq<Request>
  {
    if n == 0 then [] else Schedule(n - 1) + CycleRequests(n - 1)
  }

  /** The sensor dict of a pass whose first read goes on the bus at position `pos`. */
  function SensorReadingsAt(device: Device, pos: nat): Dict<Value>
  {
    Entries(SENSOR_CATALOG, Answers(device, pos, Requests(SENSOR_CATALOG)))
  }

  /** The sensor dict of cycle `loopCount` when the cycles start at bus position `start`. */
  function CycleReadings(device: Device, start: nat, loopCount: nat): Dict<Value>
  {
    SensorReadingsAt(device, start + |Schedule(loopCount)|)
  }

  /** The publishes for one dict, in its order: `pool/<key>` for each value that is not None. */
  function Messages(d: Dict<Value>): seq<Message>
  {
    if |d| == 0 then []
    else
      var (key, value) := d[|d| - 1];
      Messages(d[..|d| - 1]) + if value != NoneValue then [Message(Topic(key), value)] else []
  }

  /** Everything the first `n` cycles publish. */
  function Published(device: Device, start: nat, n: nat): seq<Message>
  {
    if n == 0 then [] else Published(device, start, n - 1) + Messages(CycleReadings(device, start, n - 1))
  }

  /** How many of the first `n` cycles run the status pass. */
  function StatusPasses(n: nat): nat
  {
    if n == 0 then 0 else StatusPasses(n - 1) + if StatusDue(n - 1) then 1 else 0
  }

  /** The publish loop: one publish per entry whose value is not None, in dict order. */
  method PublishReadings(broker: Broker, data: Dict<Value>)
    modifies broker`published
    ensures broker.published == old(broker.published) + Messages(data)
  {
    var j := 0;
    while j < |data|
      invariant 0 <= j <= |data|
      invariant broker.published == old(broker.published) + Messages(data[..j])
    {
      var (key, value) := data[j];
      assert data[..j + 1][..j] == data[..j];
      if value != NoneValue {
        broker.Publish(Topic(key), value);
      }
      j := j + 1;
    }
    assert data[..j] == data;
  }

  /**
   * One cycle of the loop body: the sensor pass, the status pass when the
   * counter is a multiple of ten, then the publishes of the sensor dict.
   * The status dict is read and then dropped.
   */
  method RunCycle(client: Client, broker: Broker, loopCount: nat)
    modifies client`log, broker`published
    ensures client.log == old(client.log) + CycleRequests(loopCount)
    ensures broker.published == old(broker.published) + Messages(SensorReadingsAt(client.device, |old(client.log)|))
  {
    var sensorData := ReadSensorData(client);
    if loopCount % 10 == 0 {
      var statusData := ReadSystemStatus(client);
      StatusRequestsOfCatalog();
    }
    PublishReadings(broker, sensorData);
  }

  /** The `while True` loop, run for `cycles` cycles with the counter starting at 0. */
  method PollLoop(client: Client, broker: Broker, cycles: nat)
    modifies client`log, broker`published
    ensures client.log == old(client.log) + Schedule(cycles)
    ensures broker.published == old(broker.published) + Published(client.device, |old(client.log)|, cycles)
  {
    ghost var start := |client.log|;
    var loopCount := 0;
    while loopCount < cycles
      invariant 0 <= loopCount <= cycles
      invariant client.log == old(client.log) + Schedule(loopCount)
      invariant broker.published == old(broker.published) + Published(client.device, start, loopCount)
    {
      ghost var log0, sent0 := client.log, broker.published;
      RunCycle(client, broker, loopCount);
      CycleStep(client.device, loopCount, old(client.log), log0, client.log, old(broker.published), sent0, broker.published);
      loopCount := loopCount + 1;
    }
  }

  /** One more cycle appends its reads to the schedule. */
  lemma ScheduleStep(n: nat)
    ensures Schedule(n + 1) == Schedule(n) + CycleRequests(n)
  {
  }

  /** One more cycle appends its sensor publishes. */
  lemma PublishedStep(device: Device, start: nat, n: nat)
    ensures Published(device, start, n + 1) == Published(device, start, n) + Messages(CycleReadings(device, start, n))
  {
  }

  /** One more cycle extends the loop's traffic and publishes by that cycle's. */
  lemma CycleStep(device: Device, n: nat, log: seq<Request>, log0: seq<Request>, log1: seq<Request>,
                  sent: seq<Message>, sent0: seq<Message>, sent1: seq<Message>)
    requires log0 == log + Schedule(n) && log1 == log0 + CycleRequests(n)
    requires sent0 == sent + Published(device, |log|, n)
    requires sent1 == sent0 + Messages(SensorReadingsAt(device, |log0|))
    ensures log1 == log + Schedule(n + 1)
    ensures sent1 == sent + Published(device, |log|, n + 1)
  {
    ScheduleStep(n);
    PublishedStep(device, |log|, n);
    assert SensorReadingsAt(device, |log0|) == CycleReadings(device, |log|, n);
  }

  /**
   * `main`, for a run interrupted after `cycles` cycles. Nothing is read
   * when the serial link does not come up; only the probe is read, and the
   * serial client closed, when the probe fails. Otherwise the bus carries
   * the probe and then the cycles' reads, the broker receives the sensor
   * readings of every cycle, and both connections are closed. The broker
   * connection is already open on entry, as it is opened at start-up; the
   * serial link is down at the end in every case.
   */
  method Run(client: Client, broker: Broker, cycles: nat)
    requires broker.connected
    modifies client, broker
    ensures !client.connected
    ensures var base := |old(client.log)|;
      var first := client.device(base, PARALLEL_ADDRESS_REQUEST);
      var second := client.device(base + 1, MODE_REQUEST);
      if !client.reachable then
        && client.log == old(client.log) && client.closed == old(client.closed)
        && broker.published == old(broker.published) && broker.connected
      else if !Verdict(first, second) then
        && client.log == old(client.log) + ProbeRequests(first) && client.closed
        && broker.published == old(broker.published) && broker.connected
      else
        && client.log == old(client.log) + ProbeRequests(first) + Schedule(cycles) && client.closed
        && broker.published == old(broker.published) + Published(client.device, base + |ProbeRequests(first)|, cycles)
        && !broker.connected
  {
    var up := client.Connect();
    if !up {
      return;
    }
    var ok := TestBasicConnectivity(client);
    if !ok {
      client.Close();
      return;
    }
    PollLoop(client, broker, cycles);
    client.Close();
    broker.Disconnect();
  }

  /** Sensor dicts hold no None, so every reading is published once, in the pass's order. */
  lemma {:induction false} MessagesOfReadings(d: Dict<Value>)
    requires forall j :: 0 <= j < |d| ==> d[j].1 != NoneValue
    ensures |Messages(d)| == |d|
    ensures forall j :: 0 <= j < |d| ==> Messages(d)[j] == Message(Topic(d[j].0), d[j].1)
  {
    if |d| > 0 {
      MessagesOfReadings(d[..|d| - 1]);
    }
  }

  /**
   * The publish loop never sends more messages than the dict has entries,
   * never sends None, and always publishes under the `pool/` namespace.
   */
  lemma {:induction false} MessagesShape(d: Dict<Value>)
    ensures |Messages(d)| <= |d|
    ensures forall j :: 0 <= j < |Messages(d)| ==>
      Messages(d)[j].payload != NoneValue && |NAMESPACE| <= |Messages(d)[j].topic| && Messages(d)[j].topic[..|NAMESPACE|] == NAMESPACE
  {
    if |d| > 0 {
      MessagesShape(d[..|d| - 1]);
    }
  }

  /** Every read of a run asks slave 8 for a single register or bit. */
  lemma {:induction false} ScheduleReads(n: nat)
    ensures forall i :: 0 <= i < |Schedule(n)| ==> Schedule(n)[i].slave == SLAVE_ID && Schedule(n)[i].count == 1
  {
    if n > 0 {
      ScheduleReads(n - 1);
      SensorRequestsInOrder();
      StatusRequestsInOrder();
      var prev, cycle := Schedule(n - 1), CycleRequests(n - 1);
      assert Schedule(n) == prev + cycle;
      forall i | 0 <= i < |Schedule(n)| ensures Schedule(n)[i].slave == SLAVE_ID && Schedule(n)[i].count == 1 {
        if i < |prev| {
          assert Schedule(n)[i] == prev[i];
        } else {
          assert Schedule(n)[i] == cycle[i - |prev|];
        }
      }
    }
  }

  /** A cycle publishes at most one message per sensor field. */
  lemma {:induction false} PublishedBound(device: Device, start: nat, n: nat)
    ensures |Published(device, start, n)| <= 5 * n
  {
    if n > 0 {
      PublishedBound(device, start, n - 1);
      MessagesShape(CycleReadings(device, start, n - 1));
    }
  }

  /** Of the first `n` cycles, exactly ceil(n / 10) run the status pass. */
  lemma {:induction false} StatusPassCount(n: nat)
    ensures StatusPasses(n) == (n + 9) / 10
  {
    if n > 0 {
      StatusPassCount(n - 1);
    }
  }

  /** `n` cycles put 5 sensor reads each, plus 5 status reads per status cycle, on the bus. */
  lemma {:induction false} ScheduleLength(n: nat)
    ensures |Schedule(n)| == 5 * n + 5 * StatusPasses(n)
  {
    SensorRequestsInOrder();
    StatusRequestsInOrder();
    if n > 0 {
      ScheduleLength(n - 1);
    }
  }

  /**
   * Every cycle starts with the sensor pass, and a cycle issues a
   * discrete-input read exactly when its counter is a multiple of ten.
   */
  lemma CycleTraffic(loopCount: nat)
    ensures CycleRequests(loopCount)[..5] == Requests(SENSOR_CATALOG)
    ensures (exists i :: 0 <= i < |CycleRequests(loopCount)| && CycleRequests(loopCount)[i].table == DiscreteInputs)
            <==> loopCount % 10 == 0
  {
    SensorRequestsInOrder();
    StatusRequestsInOrder();
    var reqs := CycleRequests(loopCount);
    if loopCount % 10 == 0 {
      assert reqs[5].table == DiscreteInputs;
    } else {
      assert reqs == Requests(SENSOR_CATALOG);
    }
  }

  /** Cycle `c` of a longer run keeps its reads, right after those of the cycles before it. */
  lemma {:induction false} ScheduleSlot(n: nat, c: nat)
    requires c < n
    ensures Schedule(c) + CycleRequests(c) <= Schedule(n)
  {
    var slot := Schedule(c) + CycleRequests(c);
    if c < n - 1 {
      ScheduleSlot(n - 1, c);
      var before := Schedule(n - 1);
      assert Schedule(n) == before + CycleRequests(n - 1);
      assert slot == before[..|slot|];
      assert (before + CycleRequests(n - 1))[..|slot|] == before[..|slot|];
    }
  }

  /** The topics the reader publishes on: one per sensor field. */
  const SENSOR_TOPICS: set<string> := {Topic("orp"), Topic("ph"), Topic("ec"), Topic("pool_temp"), Topic("chlorine")}

  /** Messages that all carry a sensor reading, none of them None, on a sensor topic. */
  predicate SensorMessages(ms: seq<Message>)
  {
    forall j :: 0 <= j < |ms| ==> ms[j].topic in SENSOR_TOPICS && ms[j].payload != NoneValue
  }

  /** Every publish of a cycle is a sensor reading under its sensor topic, never None. */
  lemma CycleMessagesAreSensorReadings(replies: seq<Reply>)
    requires |replies| == |SENSOR_CATALOG|
    ensures SensorMessages(Messages(Entries(SENSOR_CATALOG, replies)))
  {
    var d := Entries(SENSOR_CATALOG, replies);
    MessagesOfReadings(d);
    forall j | 0 <= j < |d| ensures Topic(d[j].0) in SENSOR_TOPICS {
      var i := EntryOrigin(SENSOR_CATALOG, replies, j);
      assert i == 0 || i == 1 || i == 2 || i == 3 || i == 4;
    }
  }

  /**
   * A whole run publishes only sensor readings: every topic is a sensor
   * topic, no payload is None, and no status flag is ever published.
   */
  lemma {:induction false} PublishedOnlySensorReadings(device: Device, start: nat, n: nat)
    ensures SensorMessages(Published(device, start, n))
    ensures forall i :: 0 <= i < |StatusCatalog()| ==> Topic(StatusCatalog()[i].key) !in SENSOR_TOPICS
  {
    var p := Published(device, start, n);
    if n > 0 {
      var prev := Published(device, start, n - 1);
      var m := Messages(Entries(SENSOR_CATALOG, Answers(device, start + |Schedule(n - 1)|, Requests(SENSOR_CATALOG))));
      PublishedOnlySensorReadings(device, start, n - 1);
      CycleMessagesAreSensorReadings(Answers(device, start + |Schedule(n - 1)|, Requests(SENSOR_CATALOG)));
      assert p == prev + m;
      forall j | 0 <= j < |p| ensures p[j].topic in SENSOR_TOPICS && p[j].payload != NoneValue {
        if j >= |prev| {
          assert p[j] == m[j - |prev|];
        } else {
          assert p[j] == prev[j];
        }
      }
    }
    StatusCatalogUnique();
  }

  /**
   * The decoded-and-published round trip: ORP word 0xF830 is published as
   * -2000 on `pool/orp`, first in the cycle.
   */
  lemma OrpWordPublished(replies: seq<Reply>)
    requires |replies| == |SENSOR_CATALOG| && replies[0] == Registers([0xF830])
    ensures var m := Messages(Entries(SENSOR_CATALOG, replies));
      |m| > 0 && m[0] == Message("pool/orp", IntValue(-2000))
  {
    var d := Entries(SENSOR_CATALOG, replies);
    MessagesOfReadings(d);
    EntriesPrefix(SENSOR_CATALOG, replies, 1);
    assert Entries(SENSOR_CATALOG[..1], replies[..1]) == [("orp", IntValue(-2000))];
  }
}
