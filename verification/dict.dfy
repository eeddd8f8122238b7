/**
 Python's `dict`: a finite map that remembers the order in which its keys were
 first inserted. Assigning to a key that is already present replaces its value in
 place; a new key goes to the end. Iteration (`.items()`) follows that order.
 */
module Dict {
  import opened Wrappers

  type Dict<K, V> = seq<(K, V)>

  /** The keys in iteration order. */
  function Keys<K, V>(d: Dict<K, V>): (r: seq<K>)
    ensures |r| == |d|
    ensures forall i | 0 <= i < |d| :: r[i] == d[i].0
  {
    if |d| == 0 then [] else [d[0].0] + Keys(d[1..])
  }

  predicate UniqueKeys<K(==), V>(d: Dict<K, V>) {
    forall i, j | 0 <= i < j < |d| :: d[i].0 != d[j].0
  }

  /** `d.get(k)`: the value stored under `k`, if any. */
  function Get<K(==), V>(d: Dict<K, V>, k: K): (r: Option<V>)
  {
    if |d| == 0 then None
    else if d[0].0 == k then Some(d[0].1)
    else Get(d[1..], k)
  }

  /** A key has a value exactly when it is among the keys, and the value is the
      one of its first entry. */
  lemma {:induction false} GetFirst<K, V>(d: Dict<K, V>, k: K)
    ensures Get(d, k).Some? <==> k in Keys(d)
    ensures Get(d, k).Some? ==>
              exists i | 0 <= i < |d| :: d[i] == (k, Get(d, k).value) && k !in Keys(d)[..i]
  {
    if |d| > 0 {
      GetFirst(d[1..], k);
      KeysCons(d);
      if d[0].0 == k {
        assert d[0] == (k, Get(d, k).value) && k !in Keys(d)[..0];
      } else if Get(d, k).Some? {
        var i :| 0 <= i < |d[1..]| && d[1..][i] == (k, Get(d, k).value) && k !in Keys(d[1..])[..i];
        assert Keys(d)[..i + 1] == [d[0].0] + Keys(d[1..])[..i];
        assert d[i + 1] == (k, Get(d, k).value) && k !in Keys(d)[..i + 1];
      }
    }
  }

  lemma KeysCons<K, V>(d: Dict<K, V>)
    requires |d| > 0
    ensures Keys(d) == [d[0].0] + Keys(d[1..])
  {
  }

  /** `d[k] = v`. */
  function Put<K(==), V>(d: Dict<K, V>, k: K, v: V): (r: Dict<K, V>)
    ensures |r| == |d| || |r| == |d| + 1
  {
    if |d| == 0 then [(k, v)]
    else if d[0].0 == k then [(k, v)] + d[1..]
    else [d[0]] + Put(d[1..], k, v)
  }

  /** After `d[k] = v`, looking up `k` gives `v` and every other key is as before. */
  lemma {:induction false} PutGet<K, V>(d: Dict<K, V>, k: K, v: V, k': K)
    ensures Get(Put(d, k, v), k') == if k' == k then Some(v) else Get(d, k')
  {
    if |d| > 0 && d[0].0 != k {
      PutGet(d[1..], k, v, k');
      assert Put(d, k, v)[1..] == Put(d[1..], k, v);
    }
  }

  /** A present key keeps its place; a new key is appended. */
  lemma {:induction false} PutKeys<K, V>(d: Dict<K, V>, k: K, v: V)
    ensures k in Keys(d) ==> Keys(Put(d, k, v)) == Keys(d)
    ensures k !in Keys(d) ==> Keys(Put(d, k, v)) == Keys(d) + [k]
  {
    if |d| > 0 && d[0].0 != k {
      PutKeys(d[1..], k, v);
      assert Keys(d) == [d[0].0] + Keys(d[1..]);
      assert Keys(Put(d, k, v)) == [d[0].0] + Keys(Put(d[1..], k, v));
    }
  }

  /** Assignment never makes two entries share a key. */
  lemma {:induction false} PutUnique<K, V>(d: Dict<K, V>, k: K, v: V)
    requires UniqueKeys(d)
    ensures UniqueKeys(Put(d, k, v))
  {
    PutKeys(d, k, v);
    var r := Put(d, k, v);
    var kr := Keys(r);
    forall i, j | 0 <= i < j < |r| ensures r[i].0 != r[j].0 {
      assert kr[i] == r[i].0 && kr[j] == r[j].0;
      if j >= |d| {
        assert kr[i] == Keys(d)[i];
      } else {
        assert kr[i] == Keys(d)[i] && kr[j] == Keys(d)[j];
      }
    }
  }

  /** The mapping a dict denotes. */
  function ToMap<K(==,!new), V>(d: Dict<K, V>): (m: map<K, V>)
    ensures forall k | k in m :: Get(d, k) == Some(m[k])
    ensures forall k | k !in m :: Get(d, k) == None
  {
    if |d| == 0 then map[] else ToMap(d[1..])[d[0].0 := d[0].1]
  }

  /** Assigning a key changes the denoted mapping at that key only. */
  lemma {:induction false} ToMapPut<K(!new), V>(d: Dict<K, V>, k: K, v: V)
    ensures ToMap(Put(d, k, v)) == ToMap(d)[k := v]
  {
    var l := ToMap(Put(d, k, v));
    var r := ToMap(d)[k := v];
    forall x ensures x in l <==> x in r {
      PutGet(d, k, v, x);
    }
    forall x | x in l ensures l[x] == r[x] {
      PutGet(d, k, v, x);
    }
  }
}
