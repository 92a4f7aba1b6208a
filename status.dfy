/**
 * The status pass (`read_system_status`): five discrete inputs, read in
 * the order of the address table, each stored under a key derived from
 * its description.
 */
module Status {
  import opened Wrappers
  import opened Modbus
  import opened OrderedMap
  import opened Decoding
  import opened Passes

  /** Python's `str.lower()` on one character, for the ASCII letters the descriptions use. */
  function LowerChar(c: char): char
  {
    if 'A' <= c <= 'Z' then (c as int + 32) as char else c
  }

  /**
   * `s.lower()`: the same length, no upper-case letter left, and each
   * character either kept or, for an upper-case letter, raised by 32 code
   * points to its lower-case letter. Only ASCII letters are mapped.
   */
  function Lower(s: string): (r: string)
    ensures |r| == |s|
    ensures forall i :: 0 <= i < |r| ==> !('A' <= r[i] <= 'Z')
    ensures forall i :: 0 <= i < |r| ==> r[i] == s[i] || (r[i] as int == s[i] as int + 32 && 'a' <= r[i] <= 'z')
  {
    seq(|s|, i requires 0 <= i < |s| => LowerChar(s[i]))
  }

  /**
   * `s.replace(from, to)` for single characters: every `from` becomes `to`,
   * every other character stays.
   */
  function Replace(s: string, from: char, to: char): (r: string)
    ensures |r| == |s|
    ensures forall i :: 0 <= i < |s| && s[i] == from ==> r[i] == to
    ensures forall i :: 0 <= i < |s| && s[i] != from ==> r[i] == s[i]
    ensures from != to ==> forall i :: 0 <= i < |r| ==> r[i] != from
  {
    seq(|s|, i requires 0 <= i < |s| => if s[i] == from then to else s[i])
  }

  /**
   * `desc.lower().replace(' ', '_')`: a key of the same length in which
   * each space is `_`, each upper-case letter is its lower-case letter, and
   * every other character is kept; so no space and no upper-case letter is left.
   */
  function StatusKey(desc: string): (key: string)
    ensures |key| == |desc|
    ensures forall i :: 0 <= i < |desc| ==>
      key[i] == if desc[i] == ' ' then '_' else if 'A' <= desc[i] <= 'Z' then (desc[i] as int + 32) as char else desc[i]
    ensures forall i :: 0 <= i < |key| ==> key[i] != ' ' && !('A' <= key[i] <= 'Z')
    ensures forall i :: 0 <= i < |key| && desc[i] != ' ' && !('A' <= desc[i] <= 'Z') ==> key[i] == desc[i]
  {
    Replace(Lower(desc), ' ', '_')
  }

  /** Deriving a key from a key changes nothing. */
  lemma StatusKeyIdempotent(desc: string)
    ensures StatusKey(StatusKey(desc)) == StatusKey(desc)
  {
  }

  /** The discrete inputs and their descriptions, in the source's dict order. */
  const STATUS_ADDRESSES: seq<(Word, string)> := [
    (0x0000, "Power Supply Abnormal"),
    (0x0001, "pH Regulation"),
    (0x0002, "ORP Regulation"),
    (0x0003, "Controller Over-temperature Protection"),
    (0x0030, "No Flow")
  ]

  function StatusRegister(addr: Word, desc: string): Register
  {
    Register(StatusKey(desc), Request(DiscreteInputs, addr, 1, SLAVE_ID), Flag)
  }

  /** The status flags as catalog entries. */
  function StatusCatalog(): seq<Register>
  {
    seq(|STATUS_ADDRESSES|, i requires 0 <= i < |STATUS_ADDRESSES| =>
      StatusRegister(STATUS_ADDRESSES[i].0, STATUS_ADDRESSES[i].1))
  }

  /** The catalog has one entry per flag, and no two flags share a key (their descriptions differ in length). */
  lemma StatusCatalogUnique()
    ensures |StatusCatalog()| == 5
    ensures UniqueKeys(StatusCatalog())
  {
  }

  /** "No Flow" is stored as `no_flow`. */
  lemma NoFlowKey()
    ensures StatusKey("No Flow") == "no_flow"
  {
  }

  /** "pH Regulation" is stored as `ph_regulation`. */
  lemma PhRegulationKey()
    ensures StatusKey("pH Regulation") == "ph_regulation"
  {
  }

  /** "Power Supply Abnormal" is stored as `power_supply_abnormal`. */
  lemma PowerSupplyKey()
    ensures StatusKey("Power Supply Abnormal") == "power_supply_abnormal"
  {
    var key := StatusKey("Power Supply Abnormal");
    forall i | 0 <= i < |key| ensures key[i] == "power_supply_abnormal"[i] { }
  }

  /** "ORP Regulation" is stored as `orp_regulation`. */
  lemma OrpRegulationKey()
    ensures StatusKey("ORP Regulation") == "orp_regulation"
  {
    var key := StatusKey("ORP Regulation");
    forall i | 0 <= i < |key| ensures key[i] == "orp_regulation"[i] { }
  }

  /** Keys are derived character by character, so a description can be keyed in pieces. */
  lemma StatusKeyConcat(a: string, b: string)
    ensures StatusKey(a + b) == StatusKey(a) + StatusKey(b)
  {
    var l, r := StatusKey(a + b), StatusKey(a) + StatusKey(b);
    forall i | 0 <= i < |l| ensures l[i] == r[i] {
      if i < |a| {
        assert (a + b)[i] == a[i];
      } else {
        assert (a + b)[i] == b[i - |a|];
      }
    }
  }

  /** A string that follows the derivation character by character is the derived key. */
  lemma WordKey(word: string, key: string)
    requires |word| == |key|
    requires forall i :: 0 <= i < |word| ==>
      key[i] == if word[i] == ' ' then '_' else if 'A' <= word[i] <= 'Z' then (word[i] as int + 32) as char else word[i]
    ensures StatusKey(word) == key
  {
  }

  /** The long description and its key, split into their three words. */
  lemma OverTemperatureWords()
    ensures "Controller Over-temperature Protection" == "Controller " + "Over-temperature " + "Protection"
    ensures "controller_over-temperature_protection" == "controller_" + "over-temperature_" + "protection"
  {
  }

  /** "Controller Over-temperature Protection" is stored as `controller_over-temperature_protection`. */
  lemma OverTemperatureKey()
    ensures StatusKey("Controller Over-temperature Protection") == "controller_over-temperature_protection"
  {
    var w1, w2, w3 := "Controller ", "Over-temperature ", "Protection";
    WordKey(w1, "controller_");
    WordKey(w2, "over-temperature_");
    WordKey(w3, "protection");
    StatusKeyConcat(w1 + w2, w3);
    StatusKeyConcat(w1, w2);
    OverTemperatureWords();
  }

  /** The reads of a status pass, one per row of the address table and in its order. */
  function StatusRequests(): seq<Request>
  {
    seq(|STATUS_ADDRESSES|, i requires 0 <= i < |STATUS_ADDRESSES| =>
      Request(DiscreteInputs, STATUS_ADDRESSES[i].0, 1, SLAVE_ID))
  }

  /** The catalog's requests are those reads: deriving the keys does not touch the bus traffic. */
  lemma StatusRequestsOfCatalog()
    ensures Requests(StatusCatalog()) == StatusRequests()
  {
  }

  /** The status pass reads discrete inputs 0x0000, 0x0001, 0x0002, 0x0003 and 0x0030 of slave 8, in that order. */
  lemma StatusRequestsInOrder()
    ensures StatusRequests() == [
      Request(DiscreteInputs, 0x0000, 1, 8), Request(DiscreteInputs, 0x0001, 1, 8),
      Request(DiscreteInputs, 0x0002, 1, 8), Request(DiscreteInputs, 0x0003, 1, 8),
      Request(DiscreteInputs, 0x0030, 1, 8)]
  {
  }

  /**
   * The loop over the address table: each discrete input is read on its
   * own, and a successful read stores its bit under the derived key.
   */
  method ReadSystemStatus(client: Client) returns (data: Dict<Value>)
    modifies client`log
    ensures client.log == old(client.log) + Requests(StatusCatalog())
    ensures data == Entries(StatusCatalog(), Answers(client.device, |old(client.log)|, Requests(StatusCatalog())))
  {
    ghost var catalog := StatusCatalog();
    ghost var replies := Answers(client.device, |client.log|, Requests(catalog));
    data := [];
    ghost var ds := [data];
    var i := 0;
    while i < |STATUS_ADDRESSES|
      invariant 0 <= i <= |STATUS_ADDRESSES|
      invariant client.log == old(client.log) + Requests(catalog)[..i]
      invariant |ds| == i + 1 && ds[0] == [] && ds[i] == data
      invariant forall k :: 0 <= k < i ==> ds[k + 1] == Store(catalog[k], replies[k], ds[k])
    {
      var (addr, desc) := STATUS_ADDRESSES[i];
      assert Requests(catalog)[..i + 1] == Requests(catalog)[..i] + [catalog[i].request];
      ghost var prev := data;
      data := ReadField(client, data, StatusRegister(addr, desc));
      assert data == Store(catalog[i], replies[i], prev);
      ds := ds + [data];
      i := i + 1;
    }
    assert Requests(catalog)[..i] == Requests(catalog);
    StatusCatalogUnique();
    PassFromSteps(catalog, replies, ds);
  }

  /**
   * What a status pass holds: each flag whose read succeeded, under its
   * derived key, with the bit unchanged; a flag whose read failed is absent.
   */
  lemma StatusPassReadings(replies: seq<Reply>, i: nat)
    requires |replies| == |StatusCatalog()| && i < |replies|
    ensures Get(Entries(StatusCatalog(), replies), StatusKey(STATUS_ADDRESSES[i].1)) ==
      match FirstBit(replies[i])
      case Some(bit) => Some(BoolValue(bit))
      case None => None
  {
    StatusCatalogUnique();
    EntriesGet(StatusCatalog(), replies, i);
  }

  /** The keys of a status pass are exactly the flags whose reads succeeded. */
  lemma StatusPassKeys(replies: seq<Reply>)
    requires |replies| == |StatusCatalog()|
    ensures forall k :: k in Keys(Entries(StatusCatalog(), replies)) <==>
      exists i :: 0 <= i < 5 && StatusKey(STATUS_ADDRESSES[i].1) == k && FirstBit(replies[i]).Some?
  {
    StatusCatalogUnique();
    EntriesKeySet(StatusCatalog(), replies);
    var s := set i | 0 <= i < |StatusCatalog()| && DecodeReply(StatusCatalog()[i].rule, replies[i]).Some? :: StatusCatalog()[i].key;
    forall k ensures k in Keys(Entries(StatusCatalog(), replies)) <==>
      exists i :: 0 <= i < 5 && StatusKey(STATUS_ADDRESSES[i].1) == k && FirstBit(replies[i]).Some?
    {
      assert k in Keys(Entries(StatusCatalog(), replies)) <==> k in s;
    }
  }
}
