/**
  The buckets of the open-addressed table as sequences: flags, keys and values,
  what they hold, and what the table's operations do to them.
*/
module KhashState {
  import opened Arith
  import opened Triangular

  datatype Flag = Empty | Deleted | Live

  function LiveSet(f: seq<Flag>): set<nat> { set i: nat | i < |f| && f[i] == Live }

  function UsedSet(f: seq<Flag>): set<nat> { set i: nat | i < |f| && f[i] != Empty }

  /** Bucket i is h's t-th probe, and all probes before it are in use. */
  ghost predicate PathAt(f: seq<Flag>, h: nat, i: nat, t: nat)
    requires |f| > 0
  {
    Probe(h, t, |f|) == i && forall s: nat :: s < t ==> f[Probe(h, s, |f|)] != Empty
  }

  ghost predicate OnPath(f: seq<Flag>, h: nat, i: nat)
    requires |f| > 0
  {
    exists t: nat :: t < |f| && PathAt(f, h, i, t)
  }

  /** No empty bucket comes before a live key on its probe path. */
  ghost predicate AllOnPath<K>(hash: K -> nat, f: seq<Flag>, keys: seq<K>) {
    |f| <= |keys| && forall i :: 0 <= i < |f| && f[i] == Live ==> OnPath(f, hash(keys[i]), i)
  }

  predicate DistinctKeys<K(==)>(f: seq<Flag>, keys: seq<K>) {
    |f| <= |keys| && forall i, j :: 0 <= i < j < |f| && f[i] == Live && f[j] == Live ==> keys[i] != keys[j]
  }

  predicate HeldIn<K(==)>(f: seq<Flag>, keys: seq<K>, k: K)
    requires |f| <= |keys|
  {
    exists i :: 0 <= i < |f| && f[i] == Live && keys[i] == k
  }

  /** m holds the live buckets' pairs and nothing else. */
  ghost predicate Represents<K, V>(f: seq<Flag>, keys: seq<K>, vals: seq<V>, m: map<K, V>) {
    && |f| <= |keys| && |f| <= |vals|
    && (forall i :: 0 <= i < |f| && f[i] == Live ==> keys[i] in m && m[keys[i]] == vals[i])
    && (forall k :: k in m ==> HeldIn(f, keys, k))
  }

  /** The finite map the buckets hold. */
  function Pairs<K, V>(f: seq<Flag>, keys: seq<K>, vals: seq<V>): (m: map<K, V>)
    requires DistinctKeys(f, keys) && |f| <= |vals|
  {
    map i | 0 <= i < |f| && f[i] == Live :: keys[i] := vals[i]
  }

  lemma {:induction false} PairsRepresent<K, V>(f: seq<Flag>, keys: seq<K>, vals: seq<V>)
    requires DistinctKeys(f, keys) && |f| <= |vals|
    ensures Represents(f, keys, vals, Pairs(f, keys, vals))
  {
  }

  lemma {:induction false} RepresentsOne<K, V>(f: seq<Flag>, keys: seq<K>, vals: seq<V>, m: map<K, V>, n: map<K, V>)
    requires Represents(f, keys, vals, m) && Represents(f, keys, vals, n)
    ensures m == n
  {
    forall k | k in m
      ensures k in n && m[k] == n[k]
    {
      assert HeldIn(f, keys, k);
    }
    forall k | k in n
      ensures k in m
    {
      assert HeldIn(f, keys, k);
    }
  }

  ghost predicate PowerSized(n: nat) { exists k: nat :: 2 <= k <= 31 && n == Pow2(k) }

  // ---------- Paths ----------

  /** A bucket reached later than once round was reached before. */
  lemma {:induction false} PathShortens(f: seq<Flag>, h: nat, i: nat, t: nat)
    requires PowerSized(|f|) && PathAt(f, h, i, t)
    ensures OnPath(f, h, i)
  {
    if t >= |f| {
      var k: nat :| 2 <= k <= 31 && |f| == Pow2(k);
      var s := ProbeCovers(h, i, k);
      assert PathAt(f, h, i, s);
    }
  }

  lemma {:induction false} PathStays(f: seq<Flag>, g: seq<Flag>, h: nat, i: nat)
    requires |f| == |g| > 0 && OnPath(f, h, i)
    requires forall j :: 0 <= j < |f| && f[j] != Empty ==> g[j] != Empty
    ensures OnPath(g, h, i)
  {
    var t: nat :| t < |f| && PathAt(f, h, i, t);
    assert PathAt(g, h, i, t);
  }

  // ---------- Looking for a key ----------

  /** The search does not stop at bucket i. */
  predicate PassesBy<K(==)>(f: seq<Flag>, keys: seq<K>, key: K, i: nat)
    requires i < |f| <= |keys|
  {
    f[i] != Empty && (f[i] == Deleted || keys[i] != key)
  }

  ghost predicate PassedBy<K>(f: seq<Flag>, keys: seq<K>, key: K, h: nat, m: nat)
    requires 0 < |f| <= |keys|
  {
    forall s: nat :: s < m ==> PassesBy(f, keys, key, Probe(h, s, |f|))
  }

  /** Stopping at an empty bucket means that the key is not there. */
  lemma {:induction false} EmptyMeansAbsent<K, V>(hash: K -> nat, f: seq<Flag>, keys: seq<K>, vals: seq<V>, key: K, m: nat)
    requires DistinctKeys(f, keys) && 0 < |f| <= |vals| && AllOnPath(hash, f, keys)
    requires PassedBy(f, keys, key, hash(key), m) && f[Probe(hash(key), m, |f|)] == Empty
    ensures key !in Pairs(f, keys, vals)
  {
    if key in Pairs(f, keys, vals) {
      assert HeldIn(f, keys, key);
      var i :| 0 <= i < |f| && f[i] == Live && keys[i] == key;
      assert OnPath(f, hash(key), i);
      var t: nat :| t < |f| && PathAt(f, hash(key), i, t);
      PassedNotKey(f, keys, key, hash(key), m, t);
    }
  }

  lemma {:induction false} PassedNotKey<K>(f: seq<Flag>, keys: seq<K>, key: K, h: nat, m: nat, t: nat)
    requires 0 < |f| <= |keys| && PassedBy(f, keys, key, h, m)
    ensures t < m ==> PassesBy(f, keys, key, Probe(h, t, |f|))
  {
  }

  /** So does passing by n buckets or more. */
  lemma {:induction false} WrapMeansAbsent<K, V>(f: seq<Flag>, keys: seq<K>, vals: seq<V>, key: K, h: nat, m: nat)
    requires DistinctKeys(f, keys) && PowerSized(|f|) && |f| <= |vals|
    requires PassedBy(f, keys, key, h, m) && m >= |f|
    ensures key !in Pairs(f, keys, vals)
    ensures forall i :: 0 <= i < |f| ==> f[i] != Empty
  {
    forall i | 0 <= i < |f|
      ensures PassesBy(f, keys, key, i)
    {
      var k: nat :| 2 <= k <= 31 && |f| == Pow2(k);
      var t := ProbeCovers(h, i, k);
      assert PassesBy(f, keys, key, Probe(h, t, |f|));
    }
    assert !HeldIn(f, keys, key) by {
      forall i | 0 <= i < |f| && f[i] == Live
        ensures keys[i] != key
      {
        assert PassesBy(f, keys, key, i);
      }
    }
    forall i | 0 <= i < |f|
      ensures f[i] != Empty
    {
      assert PassesBy(f, keys, key, i);
    }
  }

  // ---------- Storing and deleting ----------

  lemma {:induction false} StoreKeeps<K, V>(hash: K -> nat, f: seq<Flag>, keys: seq<K>, vals: seq<V>, key: K, x: nat)
    requires DistinctKeys(f, keys) && 0 < |f| == |keys| == |vals| && AllOnPath(hash, f, keys)
    requires x < |f| && f[x] != Live && key !in Pairs(f, keys, vals) && OnPath(f, hash(key), x)
    ensures var g, keys' := f[x := Live], keys[x := key];
      && DistinctKeys(g, keys') && AllOnPath(hash, g, keys')
      && Pairs(g, keys', vals) == Pairs(f, keys, vals)[key := vals[x]]
  {
    var g, keys' := f[x := Live], keys[x := key];
    forall i | 0 <= i < |g| && g[i] == Live
      ensures OnPath(g, hash(keys'[i]), i)
    {
      PathStays(f, g, hash(keys'[i]), i);
    }
    StorePairs(f, keys, vals, key, x);
  }

  lemma {:induction false} StorePairs<K, V>(f: seq<Flag>, keys: seq<K>, vals: seq<V>, key: K, x: nat)
    requires DistinctKeys(f, keys) && |f| == |keys| == |vals|
    requires x < |f| && f[x] != Live && key !in Pairs(f, keys, vals)
    ensures DistinctKeys(f[x := Live], keys[x := key])
    ensures Pairs(f[x := Live], keys[x := key], vals) == Pairs(f, keys, vals)[key := vals[x]]
  {
    var g, keys' := f[x := Live], keys[x := key];
    var m := Pairs(f, keys, vals);
    forall i | 0 <= i < |g| && g[i] == Live && i != x
      ensures keys'[i] in m && keys'[i] != key
    {
      assert f[i] == Live;
    }
    forall k | k in m[key := vals[x]]
      ensures HeldIn(g, keys', k)
    {
      if k == key {
        assert g[x] == Live;
      } else {
        assert HeldIn(f, keys, k);
        var i :| 0 <= i < |f| && f[i] == Live && keys[i] == k;
        assert g[i] == Live && keys'[i] == k;
      }
    }
    RepresentsOne(g, keys', vals, Pairs(g, keys', vals), m[key := vals[x]]);
  }

  lemma {:induction false} DeleteKeeps<K, V>(hash: K -> nat, f: seq<Flag>, keys: seq<K>, vals: seq<V>, x: nat)
    requires DistinctKeys(f, keys) && |f| == |keys| == |vals| && AllOnPath(hash, f, keys)
    requires x < |f| && f[x] == Live
    ensures var g := f[x := Deleted];
      && DistinctKeys(g, keys) && AllOnPath(hash, g, keys)
      && Pairs(g, keys, vals) == Pairs(f, keys, vals) - {keys[x]}
  {
    var g := f[x := Deleted];
    forall i | 0 <= i < |g| && g[i] == Live
      ensures OnPath(g, hash(keys[i]), i)
    {
      PathStays(f, g, hash(keys[i]), i);
    }
    DeletedPairs(f, keys, vals, x);
  }

  /** Writing a value at a live bucket. */
  lemma {:induction false} WritePairs<K, V>(f: seq<Flag>, keys: seq<K>, vals: seq<V>, x: nat, v: V)
    requires DistinctKeys(f, keys) && |f| == |keys| == |vals| && x < |f| && f[x] == Live
    ensures Pairs(f, keys, vals[x := v]) == Pairs(f, keys, vals)[keys[x] := v]
  {
    var m := Pairs(f, keys, vals)[keys[x] := v];
    forall i | 0 <= i < |f| && f[i] == Live
      ensures keys[i] in m && m[keys[i]] == vals[x := v][i]
    {
      assert i != x ==> keys[i] != keys[x];
    }
    forall k | k in m
      ensures HeldIn(f, keys, k)
    {
      assert k == keys[x] || HeldIn(f, keys, k);
    }
    RepresentsOne(f, keys, vals[x := v], Pairs(f, keys, vals[x := v]), m);
  }

  // ---------- Counting ----------

  lemma {:induction false} LiveAdded(f: seq<Flag>, x: nat)
    requires x < |f| && f[x] != Live
    ensures |LiveSet(f[x := Live])| == |LiveSet(f)| + 1
    ensures |UsedSet(f[x := Live])| == |UsedSet(f)| + if f[x] == Empty then 1 else 0
  {
    assert LiveSet(f[x := Live]) == LiveSet(f) + {x};
    assert UsedSet(f[x := Live]) == UsedSet(f) + {x};
    if f[x] != Empty {
      assert UsedSet(f) + {x} == UsedSet(f);
    }
  }

  lemma {:induction false} LiveRemoved(f: seq<Flag>, x: nat)
    requires x < |f| && f[x] == Live
    ensures |LiveSet(f[x := Deleted])| == |LiveSet(f)| - 1
    ensures |UsedSet(f[x := Deleted])| == |UsedSet(f)|
  {
    assert LiveSet(f[x := Deleted]) == LiveSet(f) - {x};
    assert UsedSet(f[x := Deleted]) == UsedSet(f);
  }

  lemma {:induction false} CountsBounded(f: seq<Flag>)
    ensures |LiveSet(f)| <= |UsedSet(f)| <= |f|
    ensures |UsedSet(f)| < |f| ==> exists i :: 0 <= i < |f| && f[i] == Empty
    ensures |LiveSet(f)| == |f| <==> forall i :: 0 <= i < |f| ==> f[i] == Live
  {
    BucketsSize(|f|);
    SubsetSize(LiveSet(f), UsedSet(f));
    SubsetSize(UsedSet(f), Buckets(|f|));
    if forall i :: 0 <= i < |f| ==> f[i] != Empty {
      assert UsedSet(f) == Buckets(|f|);
    }
    if forall i :: 0 <= i < |f| ==> f[i] == Live {
      assert LiveSet(f) == Buckets(|f|);
    }
    if |LiveSet(f)| == |f| {
      FullSubset(LiveSet(f), Buckets(|f|));
      forall i | 0 <= i < |f|
        ensures f[i] == Live
      {
        assert i in LiveSet(f);
      }
    }
  }

  /** As many pairs as live buckets. */
  lemma {:induction false} PairsCounted<K, V>(f: seq<Flag>, keys: seq<K>, vals: seq<V>)
    requires DistinctKeys(f, keys) && |f| == |keys| == |vals|
    ensures |Pairs(f, keys, vals)| == |LiveSet(f)|
    decreases |LiveSet(f)|
  {
    var m := Pairs(f, keys, vals);
    if LiveSet(f) == {} {
      forall k | k in m
        ensures false
      {
        NoneHeld(f, keys, k);
      }
      assert m == map[];
    } else {
      var x :| x in LiveSet(f);
      LiveRemoved(f, x);
      DeletedPairs(f, keys, vals, x);
      PairsCounted(f[x := Deleted], keys, vals);
      RemovedCount(m, keys[x]);
    }
  }

  lemma {:induction false} NoneHeld<K>(f: seq<Flag>, keys: seq<K>, k: K)
    requires |f| <= |keys| && LiveSet(f) == {}
    ensures !HeldIn(f, keys, k)
  {
    forall i: nat | i < |f|
      ensures f[i] != Live
    {
      assert i in LiveSet(f) <==> f[i] == Live;
    }
  }

  lemma {:induction false} RemovedCount<K, V>(m: map<K, V>, k: K)
    requires k in m
    ensures |m - {k}| == |m| - 1
  {
    assert (m - {k}).Keys == m.Keys - {k};
    assert |m| == |m.Keys| && |m - {k}| == |(m - {k}).Keys|;
  }

  lemma {:induction false} DeletedPairs<K, V>(f: seq<Flag>, keys: seq<K>, vals: seq<V>, x: nat)
    requires DistinctKeys(f, keys) && |f| == |keys| == |vals| && x < |f| && f[x] == Live
    ensures DistinctKeys(f[x := Deleted], keys)
    ensures Pairs(f[x := Deleted], keys, vals) == Pairs(f, keys, vals) - {keys[x]}
  {
    var g, m := f[x := Deleted], Pairs(f, keys, vals) - {keys[x]};
    forall i | 0 <= i < |g| && g[i] == Live
      ensures keys[i] in m && m[keys[i]] == vals[i]
    {
      assert f[i] == Live && keys[i] != keys[x];
    }
    forall k | k in m
      ensures HeldIn(g, keys, k)
    {
      assert HeldIn(f, keys, k);
      var i :| 0 <= i < |f| && f[i] == Live && keys[i] == k;
      assert g[i] == Live;
    }
    RepresentsOne(g, keys, vals, Pairs(g, keys, vals), m);
  }
}
