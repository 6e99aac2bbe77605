/**
 * A Python `dict`: a finite map that remembers the order in which its keys
 * were first inserted. Assigning to an existing key replaces its value and
 * keeps its position; assigning to a new key appends it. Iteration
 * (`for k in d`, `d.items()`) follows `keys`.
 */
module PyDict {
  import opened Wrappers

  datatype Dict<K(==, !new), V> = Dict(keys: seq<K>, vals: map<K, V>)

  /** The keys are distinct and are exactly the keys of the map. */
  ghost predicate Valid<K(!new), V>(d: Dict<K, V>)
  {
    && (forall i, j :: 0 <= i < j < |d.keys| ==> d.keys[i] != d.keys[j])
    && (forall k :: k in d.vals <==> k in d.keys)
  }

  /** `{}` */
  function Empty<K(==, !new), V>(): (d: Dict<K, V>)
    ensures Valid(d) && |d.keys| == 0
  {
    Dict([], map[])
  }

  /** `d[k] = v` */
  function Set<K(==, !new), V>(d: Dict<K, V>, k: K, v: V): (r: Dict<K, V>)
    ensures Valid(d) ==> Valid(r)
  {
    if k in d.keys then Dict(d.keys, d.vals[k := v]) else Dict(d.keys + [k], d.vals[k := v])
  }

  /** `d.get(k)`, with `None` for a missing key. */
  function Get<K(==, !new), V>(d: Dict<K, V>, k: K): Option<V>
  {
    if k in d.vals then Some(d.vals[k]) else None
  }

  /** `list(d.items())` */
  function Items<K(==, !new), V>(d: Dict<K, V>): (items: seq<(K, V)>)
    requires Valid(d)
    ensures |items| == |d.keys|
    ensures forall i :: 0 <= i < |items| ==> items[i].0 == d.keys[i] && items[i].1 == d.vals[d.keys[i]]
  {
    seq(|d.keys|, i requires 0 <= i < |d.keys| => (d.keys[i], d.vals[d.keys[i]]))
  }

  /** Assignment is seen by a lookup of the same key and by no other. */
  lemma GetSet<K(!new), V>(d: Dict<K, V>, k: K, v: V, k': K)
    ensures Get(Set(d, k, v), k') == if k' == k then Some(v) else Get(d, k')
  {
  }
}
