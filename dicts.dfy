/** A Python dict with string keys whose iteration order matters: its keys in
    first-insertion order next to the key-to-value map. Assigning to an
    existing key keeps the key where it was. */
module Dicts {
  import opened Results

  datatype Dict<V> = Dict(keys: seq<string>, entries: map<string, V>)

  /** Keys listed once each, and exactly the keys of the map. */
  ghost predicate Valid<V>(d: Dict<V>) {
    && (forall i, j :: 0 <= i < j < |d.keys| ==> d.keys[i] != d.keys[j])
    && (forall k :: k in d.entries <==> k in d.keys)
  }

  /** `{}` */
  function Empty<V>(): (d: Dict<V>)
    ensures Valid(d) && d.keys == [] && d.entries == map[]
  {
    Dict([], map[])
  }

  /** `d[k] = v` */
  function Put<V>(d: Dict<V>, k: string, v: V): (r: Dict<V>)
    requires Valid(d)
    ensures Valid(r)
    ensures r.entries == d.entries[k := v]
    ensures r.keys == if k in d.entries then d.keys else d.keys + [k]
  {
    Dict(if k in d.entries then d.keys else d.keys + [k], d.entries[k := v])
  }

  /** `d.get(k)` */
  function Get<V>(d: Dict<V>, k: string): (r: Option<V>)
    ensures r.Some? <==> k in d.entries
    ensures r.Some? ==> r.value == d.entries[k]
  {
    if k in d.entries then Some(d.entries[k]) else None
  }

  /** The list `d.get(k, [])` of a dict of lists. */
  function ListAt<V>(d: Dict<seq<V>>, k: string): seq<V> {
    if k in d.entries then d.entries[k] else []
  }

  /** `d.setdefault(k, []).append(v)` */
  function Append<V>(d: Dict<seq<V>>, k: string, v: V): (r: Dict<seq<V>>)
    requires Valid(d)
    ensures Valid(r)
    ensures ListAt(r, k) == ListAt(d, k) + [v]
    ensures forall k' :: k' != k ==> ListAt(r, k') == ListAt(d, k')
    ensures forall k' :: k' in r.entries <==> k' in d.entries || k' == k
    ensures r.keys == if k in d.entries then d.keys else d.keys + [k]
  {
    Put(d, k, ListAt(d, k) + [v])
  }
}
