/** A Python dict with string keys: a map that remembers the order in
    which its keys were first inserted. */
module PyDict {

  type Key = string

  datatype Dict<V> = Dict(keys: seq<Key>, entries: map<Key, V>)

  function Empty<V>(): (d: Dict<V>)
    ensures Valid(d) && |d.entries| == 0
  {
    Dict([], map[])
  }

  /** No key occurs twice in s. */
  ghost predicate Distinct(s: seq<Key>) {
    forall i, j :: 0 <= i < j < |s| ==> s[i] != s[j]
  }

  /** The keys are distinct and are exactly the keys of the map. */
  ghost predicate Valid<V>(d: Dict<V>) {
    Distinct(d.keys) && d.entries.Keys == set k | k in d.keys
  }

  /** d[k] = v: an existing key keeps its place, a new key goes last. */
  function Put<V>(d: Dict<V>, k: Key, v: V): (r: Dict<V>)
    ensures r.entries == d.entries[k := v]
    ensures k in d.entries ==> r.keys == d.keys
    ensures k !in d.entries ==> r.keys == d.keys + [k]
  {
    if k in d.entries then Dict(d.keys, d.entries[k := v])
    else Dict(d.keys + [k], d.entries[k := v])
  }

  lemma PutValid<V>(d: Dict<V>, k: Key, v: V)
    requires Valid(d)
    ensures Valid(Put(d, k, v))
  {
  }

  /** Writing a key twice leaves what the second write leaves. */
  lemma PutPut<V>(d: Dict<V>, k: Key, v1: V, v2: V)
    ensures Put(Put(d, k, v1), k, v2) == Put(d, k, v2)
  {
  }

  /** d.get(k, default) */
  function Get<V>(d: Dict<V>, k: Key, default: V): V {
    if k in d.entries then d.entries[k] else default
  }

  /** d.items(), in insertion order. */
  function Items<V>(d: Dict<V>): (r: seq<(Key, V)>)
    requires Valid(d)
    ensures |r| == |d.keys|
    ensures forall i :: 0 <= i < |r| ==> r[i] == (d.keys[i], d.entries[d.keys[i]])
  {
    seq(|d.keys|, i requires 0 <= i < |d.keys| => (d.keys[i], d.entries[d.keys[i]]))
  }

  /** A sequence of distinct keys holds as many keys as it is long. */
  lemma {:induction false} DistinctCard(s: seq<Key>)
    requires Distinct(s)
    ensures |set k | k in s| == |s|
  {
    if s != [] {
      var n := |s| - 1;
      DistinctCard(s[..n]);
      assert (set k | k in s) == (set k | k in s[..n]) + {s[n]};
      assert s[n] !in s[..n];
    }
  }

  /** len(d) counts each key once. */
  lemma SizeIsKeyCount<V>(d: Dict<V>)
    requires Valid(d)
    ensures |d.entries| == |d.keys|
  {
    DistinctCard(d.keys);
  }

  /** The items of d are exactly its key/value pairs. */
  lemma ItemsMembership<V>(d: Dict<V>)
    requires Valid(d)
    ensures forall x :: x in Items(d) <==> x.0 in d.entries && d.entries[x.0] == x.1
  {
    var r := Items(d);
    forall x: (Key, V) | x.0 in d.entries && d.entries[x.0] == x.1
      ensures x in r
    {
      assert x.0 in set k | k in d.keys;
      var i :| 0 <= i < |d.keys| && d.keys[i] == x.0;
      assert r[i] == x;
    }
  }
}
