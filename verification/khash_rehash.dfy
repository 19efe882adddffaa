/**
  Rehashing in place.  Old and new buckets share the same key and value arrays:
  an entry waits in its old bucket, stands in its new one, or is in hand.
*/
module KhashRehash {
  import opened Arith
  import opened Triangular
  import opened KhashState

  datatype Hand<K, V> = Nothing | Carrying(key: K, val: V)

  predicate Waits(f: seq<Flag>, i: int) { 0 <= i < |f| && f[i] == Live }

  /** Bucket i holds an entry under the old flags f or the new flags g. */
  predicate Holds(f: seq<Flag>, g: seq<Flag>, i: int) { Waits(f, i) || Waits(g, i) }

  ghost predicate Somewhere<K, V>(f: seq<Flag>, g: seq<Flag>, keys: seq<K>, hand: Hand<K, V>, k: K) {
    || (hand.Carrying? && hand.key == k)
    || (exists i :: 0 <= i < |keys| && Holds(f, g, i) && keys[i] == k)
  }

  /** Every pair of m is in exactly one place, and nothing else is anywhere. */
  ghost predicate Conserved<K, V>(f: seq<Flag>, g: seq<Flag>, keys: seq<K>, vals: seq<V>, hand: Hand<K, V>, m: map<K, V>) {
    && |f| <= |keys| && |g| <= |keys| == |vals|
    && (forall i :: 0 <= i < |keys| && Holds(f, g, i) ==> keys[i] in m && m[keys[i]] == vals[i])
    && (hand.Carrying? ==> hand.key in m && m[hand.key] == hand.val)
    && (forall i, j :: 0 <= i < j < |keys| && Holds(f, g, i) && Holds(f, g, j) ==> keys[i] != keys[j])
    && (hand.Carrying? ==> forall i :: 0 <= i < |keys| && Holds(f, g, i) ==> keys[i] != hand.key)
    && (forall k :: k in m ==> Somewhere(f, g, keys, hand, k))
  }

  /** The state of the rehash: size pairs in all, old and new entries in different
      buckets, and every new entry on its new probe path. */
  ghost predicate Moving<K, V>(hash: K -> nat, f: seq<Flag>, g: seq<Flag>, keys: seq<K>, vals: seq<V>,
                               hand: Hand<K, V>, m: map<K, V>, size: nat) {
    && PowerSized(|g|) && Conserved(f, g, keys, vals, hand, m)
    && (forall i :: 0 <= i < |keys| ==> !(Waits(f, i) && Waits(g, i)))
    && (forall i :: 0 <= i < |g| ==> g[i] != Deleted)
    && AllOnPath(hash, g, keys)
    && |LiveSet(f)| + |LiveSet(g)| + (if hand.Carrying? then 1 else 0) == size < |g|
  }

  lemma {:induction false} StartMoving<K, V>(
    hash: K -> nat, f: seq<Flag>, g: seq<Flag>, keys: seq<K>, vals: seq<V>, m: map<K, V>, size: nat)
    requires PowerSized(|g|) && |f| <= |keys| == |vals| && |g| <= |keys| && size == |LiveSet(f)| < |g|
    requires DistinctKeys(f, keys) && m == Pairs(f, keys, vals)
    requires forall i :: 0 <= i < |g| ==> g[i] == Empty
    ensures Moving(hash, f, g, keys, vals, Nothing, m, size)
  {
    assert LiveSet(g) == {};
    forall k | k in m
      ensures Somewhere(f, g, keys, Hand<K, V>.Nothing, k)
    {
      assert HeldIn(f, keys, k);
      var i :| 0 <= i < |f| && f[i] == Live && keys[i] == k;
      assert Holds(f, g, i);
    }
  }

  /** Take the entry of a waiting bucket in hand. */
  lemma {:induction false} PickUp<K, V>(
    hash: K -> nat, f: seq<Flag>, g: seq<Flag>, keys: seq<K>, vals: seq<V>, m: map<K, V>, size: nat, j: nat)
    requires Moving(hash, f, g, keys, vals, Nothing, m, size) && j < |f| && f[j] == Live
    ensures Moving(hash, f[j := Deleted], g, keys, vals, Carrying(keys[j], vals[j]), m, size)
  {
    var f', hand := f[j := Deleted], Carrying(keys[j], vals[j]);
    LiveRemoved(f, j);
    assert Holds(f, g, j);
    forall i | 0 <= i < |keys| && Holds(f', g, i)
      ensures Holds(f, g, i) && keys[i] != keys[j]
    {
      assert i != j;
    }
    forall k | k in m
      ensures Somewhere(f', g, keys, hand, k)
    {
      assert Somewhere(f, g, keys, Hand<K, V>.Nothing, k);
      var i :| 0 <= i < |keys| && Holds(f, g, i) && keys[i] == k;
      assert i == j || Holds(f', g, i);
    }
  }

  lemma {:induction false} PlacedOnPath<K>(hash: K -> nat, g: seq<Flag>, keys: seq<K>, i: nat, key: K, t: nat)
    requires PowerSized(|g|) && |g| <= |keys| && AllOnPath(hash, g, keys)
    requires i < |g| && g[i] == Empty && PathAt(g, hash(key), i, t)
    ensures AllOnPath(hash, g[i := Live], keys[i := key])
  {
    var g', keys' := g[i := Live], keys[i := key];
    PathShortens(g, hash(key), i, t);
    forall j | 0 <= j < |g'| && g'[j] == Live
      ensures OnPath(g', hash(keys'[j]), j)
    {
      PathStays(g, g', hash(keys'[j]), j);
    }
  }

  /** Put the entry in hand into a new bucket whose old entry, if any, has left. */
  lemma {:induction false} PutDown<K, V>(
    hash: K -> nat, f: seq<Flag>, g: seq<Flag>, keys: seq<K>, vals: seq<V>, hand: Hand<K, V>, m: map<K, V>, size: nat,
    i: nat, t: nat)
    requires Moving(hash, f, g, keys, vals, hand, m, size) && hand.Carrying?
    requires i < |g| && g[i] == Empty && PathAt(g, hash(hand.key), i, t) && !Waits(f, i)
    ensures Moving(hash, f, g[i := Live], keys[i := hand.key], vals[i := hand.val], Nothing, m, size)
  {
    var g', keys', vals' := g[i := Live], keys[i := hand.key], vals[i := hand.val];
    LiveAdded(g, i);
    PlacedOnPath(hash, g, keys, i, hand.key, t);
    PutDownConserves(f, g, keys, vals, hand, m, i);
  }

  lemma {:induction false} PutDownConserves<K, V>(
    f: seq<Flag>, g: seq<Flag>, keys: seq<K>, vals: seq<V>, hand: Hand<K, V>, m: map<K, V>, i: nat)
    requires Conserved(f, g, keys, vals, hand, m) && hand.Carrying?
    requires i < |g| && g[i] == Empty && !Waits(f, i)
    ensures Conserved(f, g[i := Live], keys[i := hand.key], vals[i := hand.val], Nothing, m)
  {
    var g', keys' := g[i := Live], keys[i := hand.key];
    assert Holds(f, g', i);
    forall j | 0 <= j < |keys| && j != i && Holds(f, g', j)
      ensures Holds(f, g, j) && keys'[j] == keys[j]
    {
    }
    forall k | k in m
      ensures Somewhere(f, g', keys', Hand<K, V>.Nothing, k)
    {
      assert Somewhere(f, g, keys, hand, k);
      if hand.key == k {
        assert keys'[i] == k;
      } else {
        var j :| 0 <= j < |keys| && Holds(f, g, j) && keys[j] == k;
        assert Holds(f, g', j) && keys'[j] == k;
      }
    }
  }

  /** Exchange the entry in hand for the one that waits in its new bucket. */
  lemma {:induction false} KickOut<K, V>(
    hash: K -> nat, f: seq<Flag>, g: seq<Flag>, keys: seq<K>, vals: seq<V>, hand: Hand<K, V>, m: map<K, V>, size: nat,
    i: nat, t: nat)
    requires Moving(hash, f, g, keys, vals, hand, m, size) && hand.Carrying?
    requires i < |g| && g[i] == Empty && PathAt(g, hash(hand.key), i, t) && Waits(f, i)
    ensures Moving(hash, f[i := Deleted], g[i := Live], keys[i := hand.key], vals[i := hand.val],
      Carrying(keys[i], vals[i]), m, size)
    ensures |LiveSet(f[i := Deleted])| < |LiveSet(f)|
  {
    LiveAdded(g, i);
    LiveRemoved(f, i);
    PlacedOnPath(hash, g, keys, i, hand.key, t);
    KickOutConserves(f, g, keys, vals, hand, m, i);
  }

  lemma {:induction false} KickOutConserves<K, V>(
    f: seq<Flag>, g: seq<Flag>, keys: seq<K>, vals: seq<V>, hand: Hand<K, V>, m: map<K, V>, i: nat)
    requires Conserved(f, g, keys, vals, hand, m) && hand.Carrying?
    requires i < |g| && g[i] == Empty && Waits(f, i)
    ensures Conserved(f[i := Deleted], g[i := Live], keys[i := hand.key], vals[i := hand.val],
      Carrying(keys[i], vals[i]), m)
  {
    var f', g', keys', hand' := f[i := Deleted], g[i := Live], keys[i := hand.key], Carrying(keys[i], vals[i]);
    assert Holds(f, g, i) && Holds(f', g', i);
    forall j | 0 <= j < |keys| && j != i && Holds(f', g', j)
      ensures Holds(f, g, j) && keys'[j] == keys[j]
    {
    }
    forall k | k in m
      ensures Somewhere(f', g', keys', hand', k)
    {
      assert Somewhere(f, g, keys, hand, k);
      if hand.key == k {
        assert keys'[i] == k;
      } else {
        var j :| 0 <= j < |keys| && Holds(f, g, j) && keys[j] == k;
        assert j == i || (Holds(f', g', j) && keys'[j] == k);
      }
    }
  }

  /** While an entry is in hand there is an empty new bucket, and probing finds one. */
  lemma {:induction false} RoomForHand<K, V>(
    hash: K -> nat, f: seq<Flag>, g: seq<Flag>, keys: seq<K>, vals: seq<V>, hand: Hand<K, V>, m: map<K, V>, size: nat)
    returns (t: nat)
    requires Moving(hash, f, g, keys, vals, hand, m, size) && hand.Carrying?
    ensures t < |g| && g[Probe(hash(hand.key), t, |g|)] == Empty
  {
    CountsBounded(g);
    assert UsedSet(g) == LiveSet(g);
    var e :| 0 <= e < |g| && g[e] == Empty;
    var k: nat :| 2 <= k <= 31 && |g| == Pow2(k);
    t := ProbeCovers(hash(hand.key), e, k);
  }

  /** When no entry waits and none is in hand, the new buckets hold the map. */
  lemma {:induction false} FinishMoving<K, V>(
    hash: K -> nat, f: seq<Flag>, g: seq<Flag>, keys: seq<K>, vals: seq<V>, m: map<K, V>, size: nat)
    requires Moving(hash, f, g, keys, vals, Nothing, m, size)
    requires forall i :: 0 <= i < |f| ==> f[i] != Live
    ensures DistinctKeys(g, keys[..|g|]) && Pairs(g, keys[..|g|], vals[..|g|]) == m
    ensures AllOnPath(hash, g, keys[..|g|]) && |LiveSet(g)| == |UsedSet(g)| == size
  {
    var keys', vals' := keys[..|g|], vals[..|g|];
    assert LiveSet(f) == {};
    assert LiveSet(g) == UsedSet(g);
    forall i | 0 <= i < |g| && g[i] == Live
      ensures Holds(f, g, i) && keys'[i] == keys[i] && keys'[i] in m && m[keys'[i]] == vals'[i]
    {
      assert Holds(f, g, i);
    }
    forall k | k in m
      ensures HeldIn(g, keys', k)
    {
      assert Somewhere(f, g, keys, Hand<K, V>.Nothing, k);
      var j :| 0 <= j < |keys| && Holds(f, g, j) && keys[j] == k;
      assert keys'[j] == k;
    }
    RepresentsOne(g, keys', vals', Pairs(g, keys', vals'), m);
  }
}
