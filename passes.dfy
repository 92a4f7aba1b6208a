/**
 * The register catalog and the reference meaning of a read pass: every
 * register is read once, in catalog order, and only the reads that
 * succeed leave an entry, so one failing field never costs another.
 */
module Passes {
  import opened Wrappers
  import opened Modbus
  import opened OrderedMap
  import opened Decoding

  /** One catalog entry: the dict key, the read that fetches it and its decode rule. */
  datatype Register = Register(key: string, request: Request, rule: Rule)

  predicate UniqueKeys(regs: seq<Register>)
  {
    forall i, j :: 0 <= i < j < |regs| ==> regs[i].key != regs[j].key
  }

  /** The bus traffic of a pass over `regs`. */
  function Requests(regs: seq<Register>): seq<Request>
  {
    seq(|regs|, i requires 0 <= i < |regs| => regs[i].request)
  }

  /**
   * The dict a pass builds when `replies[i]` answers `regs[i]`: the decoded
   * reading of each register whose read succeeded, in catalog order.
   */
  function Entries(regs: seq<Register>, replies: seq<Reply>): (d: Dict<Value>)
    requires |regs| == |replies|
    ensures |d| <= |regs|
    ensures forall j :: 0 <= j < |d| ==> d[j].1 != NoneValue
  {
    if |regs| == 0 then []
    else
      var n := |regs| - 1;
      var prev := Entries(regs[..n], replies[..n]);
      DecodeReplyKinds(regs[n].rule, replies[n]);
      match DecodeReply(regs[n].rule, replies[n])
      case Some(v) => prev + [(regs[n].key, v)]
      case None => prev
  }

  /** A key no register carries never shows up. */
  lemma {:induction false} EntriesAbsent(regs: seq<Register>, replies: seq<Reply>, k: string)
    requires |regs| == |replies|
    requires forall i :: 0 <= i < |regs| ==> regs[i].key != k
    ensures k !in Keys(Entries(regs, replies))
  {
    if |regs| > 0 {
      var n := |regs| - 1;
      var prev := Entries(regs[..n], replies[..n]);
      EntriesAbsent(regs[..n], replies[..n], k);
      if DecodeReply(regs[n].rule, replies[n]).Some? {
        assert Keys(Entries(regs, replies)) == Keys(prev) + [regs[n].key];
      }
    }
  }

  /** With distinct register keys, a pass dict holds each key at most once, as a Python dict does. */
  lemma {:induction false} EntriesKeysDistinct(regs: seq<Register>, replies: seq<Reply>)
    requires |regs| == |replies| && UniqueKeys(regs)
    ensures var d := Entries(regs, replies);
      forall a, b :: 0 <= a < b < |d| ==> d[a].0 != d[b].0
  {
    if |regs| > 0 {
      var n := |regs| - 1;
      var prev := Entries(regs[..n], replies[..n]);
      var d := Entries(regs, replies);
      assert UniqueKeys(regs[..n]);
      EntriesKeysDistinct(regs[..n], replies[..n]);
      if DecodeReply(regs[n].rule, replies[n]).Some? {
        EntriesAbsent(regs[..n], replies[..n], regs[n].key);
        assert d == prev + [(regs[n].key, DecodeReply(regs[n].rule, replies[n]).value)];
        forall a, b | 0 <= a < b < |d| ensures d[a].0 != d[b].0 {
          if b == |prev| {
            assert d[a].0 == Keys(prev)[a];
          } else {
            assert d[a] == prev[a] && d[b] == prev[b];
          }
        }
      }
    }
  }

  /** With distinct keys, each register's entry is exactly the reading of its own reply. */
  lemma {:induction false} EntriesGet(regs: seq<Register>, replies: seq<Reply>, i: nat)
    requires |regs| == |replies| && UniqueKeys(regs) && i < |regs|
    ensures Get(Entries(regs, replies), regs[i].key) == DecodeReply(regs[i].rule, replies[i])
  {
    var n := |regs| - 1;
    var prev := Entries(regs[..n], replies[..n]);
    var d := Entries(regs, replies);
    if DecodeReply(regs[n].rule, replies[n]).Some? {
      assert d == prev + [(regs[n].key, DecodeReply(regs[n].rule, replies[n]).value)];
      assert d[..|prev|] == prev;
    }
    if i == n {
      if DecodeReply(regs[n].rule, replies[n]).None? {
        EntriesAbsent(regs[..n], replies[..n], regs[n].key);
        GetDefined(prev, regs[n].key);
      }
    } else {
      EntriesGet(regs[..n], replies[..n], i);
    }
  }

  /** The keys of a pass are exactly the keys of the registers whose reads succeeded. */
  lemma {:induction false} EntriesKeySet(regs: seq<Register>, replies: seq<Reply>)
    requires |regs| == |replies|
    ensures (set k | k in Keys(Entries(regs, replies))) ==
            (set i | 0 <= i < |regs| && DecodeReply(regs[i].rule, replies[i]).Some? :: regs[i].key)
  {
    if |regs| > 0 {
      var n := |regs| - 1;
      var prev := Entries(regs[..n], replies[..n]);
      EntriesKeySet(regs[..n], replies[..n]);
      var before := set i | 0 <= i < n && DecodeReply(regs[..n][i].rule, replies[..n][i]).Some? :: regs[..n][i].key;
      var after := set i | 0 <= i < |regs| && DecodeReply(regs[i].rule, replies[i]).Some? :: regs[i].key;
      assert before == set i | 0 <= i < n && DecodeReply(regs[i].rule, replies[i]).Some? :: regs[i].key;
      if DecodeReply(regs[n].rule, replies[n]).Some? {
        assert Keys(Entries(regs, replies)) == Keys(prev) + [regs[n].key];
        assert after == before + {regs[n].key};
      } else {
        assert after == before;
      }
    }
  }

  /** Every entry of a pass comes from a successful read of a register carrying its key. */
  lemma {:induction false} EntryOrigin(regs: seq<Register>, replies: seq<Reply>, j: nat) returns (i: nat)
    requires |regs| == |replies| && j < |Entries(regs, replies)|
    ensures i < |regs| && regs[i].key == Entries(regs, replies)[j].0
    ensures DecodeReply(regs[i].rule, replies[i]) == Some(Entries(regs, replies)[j].1)
  {
    var n := |regs| - 1;
    var prev := Entries(regs[..n], replies[..n]);
    if j < |prev| {
      assert Entries(regs, replies)[j] == prev[j];
      i := EntryOrigin(regs[..n], replies[..n], j);
    } else {
      i := n;
    }
  }

  /** A pass over the first `k` registers builds a prefix of the whole pass's dict: the order is catalog order. */
  lemma {:induction false} EntriesPrefix(regs: seq<Register>, replies: seq<Reply>, k: nat)
    requires |regs| == |replies| && k <= |regs|
    ensures Entries(regs[..k], replies[..k]) <= Entries(regs, replies)
  {
    if k < |regs| {
      var n := |regs| - 1;
      assert regs[..n][..k] == regs[..k] && replies[..n][..k] == replies[..k];
      EntriesPrefix(regs[..n], replies[..n], k);
    } else {
      assert regs[..k] == regs && replies[..k] == replies;
    }
  }

  /** What one guarded read leaves in the dict: the reading stored under the key, or nothing new. */
  function Store(reg: Register, reply: Reply, d: Dict<Value>): Dict<Value>
  {
    match DecodeReply(reg.rule, reply)
    case Some(v) => Put(d, reg.key, v)
    case None => d
  }

  /**
   * Guarded reads done one after another, starting from an empty dict,
   * build the pass's reference dict: with distinct keys no assignment ever
   * overwrites an earlier field.
   */
  lemma {:induction false} PassFromSteps(regs: seq<Register>, replies: seq<Reply>, ds: seq<Dict<Value>>)
    requires |regs| == |replies| && UniqueKeys(regs) && |ds| == |regs| + 1
    requires ds[0] == []
    requires forall k :: 0 <= k < |regs| ==> ds[k + 1] == Store(regs[k], replies[k], ds[k])
    ensures ds[|regs|] == Entries(regs, replies)
  {
    if |regs| > 0 {
      var n := |regs| - 1;
      assert UniqueKeys(regs[..n]);
      PassFromSteps(regs[..n], replies[..n], ds[..n + 1]);
      assert regs[..n + 1] == regs && replies[..n + 1] == replies;
      PassStep(regs, replies, n, ds[n]);
    }
  }

  /**
   * One guarded read: the register's request goes on the wire and, when
   * the reply decodes, the reading is stored under the register's key.
   * A failed read leaves the dict as it was.
   */
  method ReadField(client: Client, data: Dict<Value>, reg: Register) returns (data': Dict<Value>)
    modifies client`log
    ensures client.log == old(client.log) + [reg.request]
    ensures data' == Store(reg, client.device(|old(client.log)|, reg.request), data)
  {
    data' := data;
    var result := client.Read(reg.request);
    match DecodeReply(reg.rule, result) {
      case Some(v) => data' := Put(data, reg.key, v);
      case None =>
    }
  }

  lemma PassStep(regs: seq<Register>, replies: seq<Reply>, n: nat, d: Dict<Value>)
    requires |regs| == |replies| && UniqueKeys(regs) && n < |regs|
    requires d == Entries(regs[..n], replies[..n])
    ensures Entries(regs[..n + 1], replies[..n + 1]) == Store(regs[n], replies[n], d)
  {
    assert regs[..n + 1][..n] == regs[..n] && replies[..n + 1][..n] == replies[..n];
    EntriesAbsent(regs[..n], replies[..n], regs[n].key);
    if DecodeReply(regs[n].rule, replies[n]).Some? {
      PutSpec(d, regs[n].key, DecodeReply(regs[n].rule, replies[n]).value);
    }
  }
}
