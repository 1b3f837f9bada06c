/**
 * A JavaScript `Map`, which iterates in insertion order, as the sequence of its entries.
 */
module InsertionMaps {
  import opened Wrappers

  function Find<K(==), V>(es: seq<(K, V)>, key: K): Option<V> {
    if es == [] then None
    else if es[0].0 == key then Some(es[0].1)
    else Find(es[1..], key)
  }

  /** No key occurs twice. */
  ghost predicate Distinct<K, V>(es: seq<(K, V)>) {
    es == [] || (Find(es[1..], es[0].0) == None && Distinct(es[1..]))
  }

  /** `Map.delete`. */
  function Without<K(==), V>(es: seq<(K, V)>, key: K): seq<(K, V)> {
    if es == [] then []
    else if es[0].0 == key then Without(es[1..], key)
    else [es[0]] + Without(es[1..], key)
  }

  /** `Map.set`: an existing key keeps its place, a new key goes last. */
  function Put<K(==), V>(es: seq<(K, V)>, key: K, value: V): seq<(K, V)> {
    if es == [] then [(key, value)]
    else if es[0].0 == key then [(key, value)] + es[1..]
    else [es[0]] + Put(es[1..], key, value)
  }

  lemma {:induction false} FindWithout<K, V>(es: seq<(K, V)>, key: K, other: K)
    ensures Find(Without(es, key), other) == if other == key then None else Find(es, other)
  {
    if es != [] { FindWithout(es[1..], key, other); }
  }

  lemma {:induction false} WithoutFacts<K, V>(es: seq<(K, V)>, key: K)
    ensures Distinct(es) ==> Distinct(Without(es, key))
    ensures Find(es, key) == None ==> Without(es, key) == es
    ensures Distinct(es) && Find(es, key).Some? ==> |Without(es, key)| == |es| - 1
    ensures |Without(es, key)| <= |es|
  {
    if es != [] {
      WithoutFacts(es[1..], key);
      FindWithout(es[1..], key, es[0].0);
    }
  }

  lemma {:induction false} PutAfterDelete<K, V>(es: seq<(K, V)>, key: K, value: V)
    requires Find(es, key) == None
    ensures Put(es, key, value) == es + [(key, value)]
  {
    if es != [] { PutAfterDelete(es[1..], key, value); }
  }

  lemma {:induction false} FindAppend<K, V>(es: seq<(K, V)>, tail: seq<(K, V)>, key: K)
    ensures Find(es + tail, key) == if Find(es, key).Some? then Find(es, key) else Find(tail, key)
  {
    if es == [] {
      assert es + tail == tail;
    } else {
      assert (es + tail)[1..] == es[1..] + tail;
      FindAppend(es[1..], tail, key);
    }
  }

  lemma {:induction false} DistinctSnoc<K, V>(es: seq<(K, V)>, key: K, value: V)
    requires Distinct(es) && Find(es, key) == None
    ensures Distinct(es + [(key, value)])
  {
    if es != [] {
      assert (es + [(key, value)])[1..] == es[1..] + [(key, value)];
      DistinctSnoc(es[1..], key, value);
      FindAppend(es[1..], [(key, value)], es[0].0);
    }
  }

  /** The entries as an unordered map. */
  function AsMap<K, V>(es: seq<(K, V)>): map<K, V> {
    if es == [] then map[] else AsMap(es[1..])[es[0].0 := es[0].1]
  }

  lemma {:induction false} AsMapFacts<K, V>(es: seq<(K, V)>)
    ensures forall k :: k in AsMap(es) <==> Find(es, k).Some?
    ensures forall k :: k in AsMap(es) ==> Find(es, k) == Some(AsMap(es)[k])
    ensures Distinct(es) ==> |AsMap(es)| == |es|
  {
    if es != [] { AsMapFacts(es[1..]); }
  }
}
