/**
 * The telemetry side: topic naming and a broker connection that records
 * what is published on it. The network client itself is not modelled.
 */
module Mqtt {
  import opened Decoding

  datatype Message = Message(topic: string, payload: Value)

  const NAMESPACE: string := "pool/"

  /** `f"pool/{key}"`: the namespace, then the key itself. */
  function Topic(key: string): (t: string)
    ensures |t| == |NAMESPACE| + |key|
    ensures t[..|NAMESPACE|] == NAMESPACE && t[|NAMESPACE|..] == key
  {
    NAMESPACE + key
  }

  /** The key a topic was made from. */
  function KeyOfTopic(topic: string): string
  {
    if |topic| >= |NAMESPACE| && topic[..|NAMESPACE|] == NAMESPACE then topic[|NAMESPACE|..] else topic
  }

  /** Topics name their keys one to one. */
  lemma TopicRoundTrip(key: string, key': string)
    ensures KeyOfTopic(Topic(key)) == key
    ensures Topic(key) == Topic(key') ==> key == key'
  {
    assert KeyOfTopic(Topic(key')) == key';
  }

  /** The MQTT connection: everything published on it, in order. */
  class Broker {
    var published: seq<Message>
    var connected: bool

    /** The client connects when the program starts, before anything else runs. */
    constructor ()
      ensures published == [] && connected
    {
      published, connected := [], true;
    }

    /** `mqtt_client.publish(topic, value)`. */
    method Publish(topic: string, payload: Value)
      modifies this`published
      ensures published == old(published) + [Message(topic, payload)]
    {
      published := published + [Message(topic, payload)];
    }

    /** `mqtt_client.disconnect()`. */
    method Disconnect()
      modifies this`connected
      ensures !connected
    {
      connected := false;
    }
  }
}
