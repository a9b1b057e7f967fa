/**
 * A map from keys to non-empty sets of values, the shape the registry uses
 * four times: group to members, connection to groups, identity to
 * connections. Insert creates a bucket lazily; Remove prunes a bucket as
 * soon as it becomes empty.
 */
module BiMultimap {

  /** The values stored under `k`, or the empty set when `k` has no bucket. */
  function Bucket<K, V>(m: map<K, set<V>>, k: K): set<V>
  {
    if k in m then m[k] else {}
  }

  /** No key is kept with an empty bucket. */
  ghost predicate NoEmptyBucket<K, V>(m: map<K, set<V>>)
  {
    forall k :: k in m ==> m[k] != {}
  }

  /** Adds `v` to the bucket of `k`, creating the bucket when it is absent. */
  function Insert<K(!new), V>(m: map<K, set<V>>, k: K, v: V): (r: map<K, set<V>>)
    ensures Bucket(r, k) == Bucket(m, k) + {v}
    ensures forall k' :: k' != k ==> Bucket(r, k') == Bucket(m, k')
    ensures r.Keys == m.Keys + {k}
    ensures NoEmptyBucket(m) ==> NoEmptyBucket(r)
  {
    m[k := Bucket(m, k) + {v}]
  }

  /** Takes `v` out of the bucket of `k` and drops the bucket once it is empty. */
  function Remove<K(!new), V>(m: map<K, set<V>>, k: K, v: V): (r: map<K, set<V>>)
    ensures Bucket(r, k) == Bucket(m, k) - {v}
    ensures forall k' :: k' != k ==> Bucket(r, k') == Bucket(m, k')
    ensures r.Keys == if Bucket(m, k) - {v} == {} then m.Keys - {k} else m.Keys
    ensures NoEmptyBucket(m) ==> NoEmptyBucket(r)
  {
    if k !in m then m
    else if m[k] - {v} == {} then m - {k}
    else m[k := m[k] - {v}]
  }

  /** Two maps without empty buckets are equal as soon as every bucket agrees. */
  lemma BucketsDetermine<K, V>(m1: map<K, set<V>>, m2: map<K, set<V>>)
    requires NoEmptyBucket(m1) && NoEmptyBucket(m2)
    requires forall k :: Bucket(m1, k) == Bucket(m2, k)
    ensures m1 == m2
  {
    forall k | k in m1 ensures k in m2 && m1[k] == m2[k] {
      assert Bucket(m1, k) == Bucket(m2, k);
    }
    forall k | k in m2 ensures k in m1 {
      assert Bucket(m1, k) == Bucket(m2, k);
    }
  }

  /** A map whose bucket of `k` is empty and whose other buckets agree with `m0` is `m0` without `k`. */
  lemma BucketsDropKey<K, V>(m: map<K, set<V>>, m0: map<K, set<V>>, k: K)
    requires NoEmptyBucket(m) && NoEmptyBucket(m0)
    requires Bucket(m, k) == {}
    requires forall k' :: k' != k ==> Bucket(m, k') == Bucket(m0, k')
    ensures m == m0 - {k}
  {
    var expected := m0 - {k};
    forall k' ensures Bucket(m, k') == Bucket(expected, k') {
    }
    BucketsDetermine(m, expected);
  }
}
