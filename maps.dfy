/** Small facts about finite maps and their key sets, used when counting new keys. */
module Maps {
  lemma UpdateThenMerge<K, V>(m: map<K, V>, k: K, v: V, rest: map<K, V>)
    ensures m[k := v] + rest == m + (map[k := v] + rest)
  {
  }

  lemma MergeKeys<K, V>(k: K, v: V, rest: map<K, V>)
    ensures (map[k := v] + rest).Keys == {k} + rest.Keys
  {
  }

  lemma UpdateKeys<K, V>(m: map<K, V>, k: K, v: V)
    ensures m[k := v].Keys == m.Keys + {k}
  {
  }

  lemma NewKeysSet<K>(m: set<K>, k: K, rest: set<K>)
    ensures |({k} + rest) - m| == |rest - (m + {k})| + (if k in m then 0 else 1)
  {
    var later := rest - (m + {k});
    if k in m {
      assert ({k} + rest) - m == later;
    } else {
      assert ({k} + rest) - m == later + {k};
    }
  }

  /** Upserting `k` first and the rest after adds one new key for `k` exactly when it was absent. */
  lemma NewKeysStep<K, V>(m: map<K, V>, k: K, v: V, rest: map<K, V>)
    ensures |(map[k := v] + rest).Keys - m.Keys| == |rest.Keys - m[k := v].Keys| + (if k in m then 0 else 1)
  {
    MergeKeys(k, v, rest);
    UpdateKeys(m, k, v);
    NewKeysSet(m.Keys, k, rest.Keys);
  }

  /** Upserting the same entries twice is upserting them once. */
  lemma MergeIdempotent<K, V>(m: map<K, V>, f: map<K, V>)
    ensures (m + f) + f == m + f
  {
  }

  /** A key of `rest` reads from `rest`; `k` alone reads `v`. */
  lemma MergeLookup<K, V>(k: K, v: V, rest: map<K, V>, x: K)
    requires x == k || x in rest
    ensures x in map[k := v] + rest
    ensures (map[k := v] + rest)[x] == if x in rest then rest[x] else v
  {
  }
}
