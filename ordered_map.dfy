/** Python's insertion-ordered dict with string keys: the key sequence records the
    order in which keys were first inserted, the map holds the values. */
module OrderedMap {

  datatype OMap<V> = OMap(keys: seq<string>, vals: map<string, V>)
  {
    /** Every key is listed exactly once, and exactly the keys of the map are listed. */
    ghost predicate Valid()
    {
      && (forall i, j :: 0 <= i < j < |keys| ==> keys[i] != keys[j])
      && (forall k :: k in vals <==> k in keys)
    }
  }

  function Empty<V>(): OMap<V>
  {
    OMap([], map[])
  }

  /** m.get(k, dflt): the value at k, or the default a defaultdict would create. */
  function Get<V>(m: OMap<V>, k: string, dflt: V): V
  {
    if k in m.vals then m.vals[k] else dflt
  }

  /** m[k] = v: a new key goes to the end of the order, an existing key keeps its place. */
  function Put<V>(m: OMap<V>, k: string, v: V): OMap<V>
  {
    OMap(if k in m.vals then m.keys else m.keys + [k], m.vals[k := v])
  }

  /** Put keeps the dict well formed: a key already present keeps its single place,
      and a new key is listed once, at the end. */
  lemma PutValid<V>(m: OMap<V>, k: string, v: V)
    requires m.Valid()
    ensures Put(m, k, v).Valid()
  {
  }

  /** m.items(), in insertion order. */
  function Items<V>(m: OMap<V>): seq<(string, V)>
    requires m.Valid()
  {
    seq(|m.keys|, i requires 0 <= i < |m.keys| => (m.keys[i], m.vals[m.keys[i]]))
  }

  /** Unfolds Items pointwise; a helper that lets the solver use the definition
      of Items cheaply inside the build_books loop. */
  lemma ItemsSpec<V>(m: OMap<V>)
    requires m.Valid()
    ensures |Items(m)| == |m.keys|
    ensures forall i :: 0 <= i < |m.keys| ==> Items(m)[i] == (m.keys[i], m.vals[m.keys[i]])
  {
  }
}
