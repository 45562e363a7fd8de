/**
  Python's `dict`, which remembers the order in which keys were first inserted:
  the key order as a sequence plus the key-value map itself.
*/
module Dicts {

  datatype RawDict<K(==), V> = RawDict(order: seq<K>, entries: map<K, V>)

  /** No element occurs twice. */
  predicate Distinct<T(==)>(s: seq<T>)
  {
    forall i, j | 0 <= i < j < |s| :: s[i] != s[j]
  }

  /** Every key is listed once, and the listed keys are exactly the mapped ones. */
  ghost predicate WellFormed<K, V>(d: RawDict<K, V>)
  {
    && Distinct(d.order)
    && (forall k | k in d.entries :: k in d.order)
    && (forall i | 0 <= i < |d.order| :: d.order[i] in d.entries)
  }

  type Dict<K(==), V> = d: RawDict<K, V> | WellFormed(d) witness RawDict([], map[])

  function Empty<K(==), V>(): (d: Dict<K, V>)
    ensures d.order == [] && d.entries == map[]
  {
    RawDict([], map[])
  }

  /**
    `d[k] = v`: an existing key keeps its place, a new key goes to the end.
  */
  function Insert<K(==), V>(d: Dict<K, V>, k: K, v: V): (r: Dict<K, V>)
    ensures r.entries == d.entries[k := v]
    ensures k in d.entries ==> r.order == d.order
    ensures k !in d.entries ==> r.order == d.order + [k]
  {
    if k in d.entries then RawDict(d.order, d.entries[k := v])
    else RawDict(d.order + [k], d.entries[k := v])
  }

  /** The number of listed keys is the number of mapped keys. */
  lemma {:induction false} OrderCoversEntries<K, V>(d: Dict<K, V>)
    ensures |d.order| == |d.entries|
  {
    DistinctCard(d.order);
    assert (set k | k in d.order) == d.entries.Keys;
  }

  /** A sequence without repetitions has as many elements as its set. */
  lemma {:induction false} DistinctCard<K>(s: seq<K>)
    requires Distinct(s)
    ensures |set k | k in s| == |s|
  {
    if s != [] {
      var t := s[..|s| - 1];
      DistinctCard(t);
      assert (set k | k in s) == (set k | k in t) + {s[|s| - 1]};
    }
  }
}
