/**
 * A Python dict as the reader uses it: string keys, iterated in insertion
 * order. It is a sequence of key/value pairs; `Put` is `d[k] = v`.
 */
module OrderedMap {
  import opened Wrappers

  type Dict<V> = seq<(string, V)>

  /** The keys in iteration order. */
  function Keys<V>(d: Dict<V>): seq<string>
  {
    seq(|d|, i requires 0 <= i < |d| => d[i].0)
  }

  /** `d.get(k)`. */
  function Get<V>(d: Dict<V>, k: string): Option<V>
  {
    if |d| == 0 then None
    else if d[|d| - 1].0 == k then Some(d[|d| - 1].1)
    else Get(d[..|d| - 1], k)
  }

  /** `d[k] = v`: an existing key keeps its place and takes the new value, a new key goes last. */
  function Put<V>(d: Dict<V>, k: string, v: V): (r: Dict<V>)
    ensures k in Keys(r)
    ensures |r| == if k in Keys(d) then |d| else |d| + 1
  {
    if k in Keys(d) then Update(d, k, v)
    else
      var r := d + [(k, v)];
      assert Keys(r)[|d|] == k;
      r
  }

  /** Overwriting the value of `k` wherever it occurs keeps every key in its place. */
  function Update<V>(d: Dict<V>, k: string, v: V): (r: Dict<V>)
    ensures Keys(r) == Keys(d)
  {
    var r := seq(|d|, i requires 0 <= i < |d| => if d[i].0 == k then (k, v) else d[i]);
    assert forall i :: 0 <= i < |d| ==> Keys(r)[i] == Keys(d)[i];
    r
  }

  /** A key has an entry exactly when it is among the keys. */
  lemma {:induction false} GetDefined<V>(d: Dict<V>, k: string)
    ensures Get(d, k).Some? <==> k in Keys(d)
  {
    if |d| > 0 {
      var n := |d| - 1;
      GetDefined(d[..n], k);
      assert Keys(d) == Keys(d[..n]) + [d[n].0];
    }
  }

  lemma {:induction false} GetUpdate<V>(d: Dict<V>, k: string, v: V, k': string)
    ensures Get(Update(d, k, v), k') == if k' != k then Get(d, k') else if k in Keys(d) then Some(v) else None
  {
    if |d| > 0 {
      var n := |d| - 1;
      assert Update(d, k, v)[..n] == Update(d[..n], k, v);
      assert Keys(d) == Keys(d[..n]) + [d[n].0];
      GetUpdate(d[..n], k, v, k');
    }
  }

  /** Assignment is read back, leaves every other key alone, and appends a new key. */
  lemma PutSpec<V>(d: Dict<V>, k: string, v: V)
    ensures Get(Put(d, k, v), k) == Some(v)
    ensures forall k' :: k' != k ==> Get(Put(d, k, v), k') == Get(d, k')
    ensures k !in Keys(d) ==> Put(d, k, v) == d + [(k, v)]
    ensures Keys(Put(d, k, v)) == if k in Keys(d) then Keys(d) else Keys(d) + [k]
  {
    if k in Keys(d) {
      forall k' ensures Get(Put(d, k, v), k') == if k' == k then Some(v) else Get(d, k') {
        GetUpdate(d, k, v, k');
      }
    } else {
      var r := d + [(k, v)];
      assert r[..|d|] == d;
    }
  }
}
