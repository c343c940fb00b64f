/** Python's insertion-ordered `dict` and `collections.Counter`. */
module Dicts {
  import opened Seqs

  /** A dictionary: `keys` lists the keys in insertion order and `vals`
      maps each key to its value. */
  datatype Dict<K, V> = Dict(keys: seq<K>, vals: map<K, V>) {

    /** Every key is listed exactly once. */
    predicate Valid() {
      Distinct(keys) && vals.Keys == Elements(keys)
    }

    /** `d.get(k, default)`. */
    function Get(k: K, default: V): V {
      if k in vals then vals[k] else default
    }

    /** `d[k] = v`: a new key goes to the end, an existing key keeps its place. */
    function Put(k: K, v: V): (d: Dict<K, V>)
      ensures Valid() ==> d.Valid()
      ensures d.vals == vals[k := v]
    {
      if k in vals then Dict(keys, vals[k := v]) else Dict(keys + [k], vals[k := v])
    }
  }

  /** `{}`. */
  function Empty<K, V>(): Dict<K, V> {
    Dict([], map[])
  }

  /** `Counter(words)`: each distinct word, in order of first occurrence,
      mapped to its number of occurrences. */
  function Counter<K>(words: seq<K>): (c: Dict<K, nat>)
    ensures c.Valid()
    ensures c.keys == Dedup(words)
    ensures c.vals.Keys == Elements(words)
    ensures forall w :: w in c.vals ==> c.vals[w] == multiset(words)[w]
  {
    if words == [] then Empty()
    else
      var n := |words| - 1;
      var c := Counter(words[..n]);
      assert words == words[..n] + [words[n]];
      assert Elements(words) == Elements(words[..n]) + {words[n]};
      c.Put(words[n], c.Get(words[n], 0) + 1)
  }
}
