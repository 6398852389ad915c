/**
 Building a mapping node of the configuration while refusing duplicate keys: the
 pairs of the node are visited in order, and a key that was already seen stops the
 construction instead of overwriting the earlier value. The keys and values arrive
 already constructed.
 */
module ConfigMapping {

  /** The outcome of building one mapping node: the map, or the first key that repeats
      an earlier one, with its position among the pairs. */
  datatype Built<K, V> = Built(m: map<K, V>) | DuplicateKey(key: K, position: nat)

  /** No two of the first `k` pairs carry the same key. */
  predicate DistinctBefore<K(==), V>(pairs: seq<(K, V)>, k: nat)
    requires k <= |pairs|
  {
    forall i, j :: 0 <= i < j < k ==> pairs[i].0 != pairs[j].0
  }

  /** A pair whose key differs from every earlier one keeps the prefix free of duplicates. */
  lemma {:induction false} DistinctExtend<K, V>(pairs: seq<(K, V)>, k: nat)
    requires k < |pairs| && DistinctBefore(pairs, k)
    requires forall i :: 0 <= i < k ==> pairs[i].0 != pairs[k].0
    ensures DistinctBefore(pairs, k + 1)
  {
    forall i, j | 0 <= i < j < k + 1
      ensures pairs[i].0 != pairs[j].0
    {
      if j < k {
        assert pairs[i].0 != pairs[j].0;
      }
    }
  }

  /** No two pairs carry the same key. */
  predicate DistinctKeys<K(==), V>(pairs: seq<(K, V)>) {
    DistinctBefore(pairs, |pairs|)
  }

  /** The key at position `j` already appeared before it. */
  predicate Repeats<K(==), V>(pairs: seq<(K, V)>, j: int)
    requires 0 <= j < |pairs|
  {
    exists i :: 0 <= i < j && pairs[i].0 == pairs[j].0
  }

  /** `NoDuplicateLoader.construct_mapping` (load_config.py lines 12-21). */
  method ConstructMapping<K, V>(pairs: seq<(K, V)>) returns (r: Built<K, V>)
    ensures r.DuplicateKey? <==> !DistinctKeys(pairs)
    ensures r.DuplicateKey? ==> r.position < |pairs| && r.key == pairs[r.position].0 && Repeats(pairs, r.position)
    ensures r.DuplicateKey? ==> DistinctBefore(pairs, r.position)
    ensures r.Built? ==> |r.m| == |pairs|
    ensures r.Built? ==> forall i :: 0 <= i < |pairs| ==> pairs[i].0 in r.m && r.m[pairs[i].0] == pairs[i].1
    ensures r.Built? ==> forall key :: key in r.m ==> exists i :: 0 <= i < |pairs| && pairs[i].0 == key
  {
    var m: map<K, V> := map[];
    var k := 0;
    while k < |pairs|
      invariant 0 <= k <= |pairs|
      invariant DistinctBefore(pairs, k)
      invariant |m| == k
      invariant forall i :: 0 <= i < k ==> pairs[i].0 in m && m[pairs[i].0] == pairs[i].1
      invariant forall key :: key in m ==> exists i :: 0 <= i < k && pairs[i].0 == key
    {
      var (key, value) := pairs[k];
      if key in m {
        var i :| 0 <= i < k && pairs[i].0 == key;
        assert Repeats(pairs, k);
        return DuplicateKey(key, k);
      }
      DistinctExtend(pairs, k);
      m := m[key := value];
      k := k + 1;
    }
    return Built(m);
  }
}
