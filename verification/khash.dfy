/**
  The open-addressed hash table with triangular probing, tombstones and an
  in-place rehash.
*/
module Khash {
  import opened Arith
  import opened Triangular
  import opened RoundUp
  import opened KhashState
  import opened KhashRehash

  const MAX_BUCKETS: nat := 0x8000_0000

  /** How many buckets may be in use: 0.77 of them, rounded. */
  function Upper(n: nat): (u: nat)
    ensures 100 * u <= 77 * n + 50 < 100 * (u + 1)
  {
    (77 * n + 50) / 100
  }

  /** r is the size the table is brought to when n buckets are asked for: the least
      power of two that is not smaller, but at least 4.  More than 2^31 wraps. */
  ghost predicate IsRounded(n: nat, r: nat) {
    PowerSized(r) && if 4 < n <= MAX_BUCKETS then n <= r < 2 * n else r == 4
  }

  ghost function Rounded(n: nat): (r: nat)
    requires n < WORD
    ensures IsRounded(n, r)
  {
    RoundedIsPower(n);
    var r :| IsRounded(n, r);
    r
  }

  predicate Apart(a: object, b: object, c: object, d: object) {
    a != b && a != c && a != d && b != c && b != d && c != d
  }

  lemma {:induction false} MaxBuckets()
    ensures Pow2(31) == MAX_BUCKETS && Pow2(2) == 4
  {
    Pow32();
  }

  lemma {:induction false} RoundedIsPower(n: nat)
    requires n < WORD
    ensures IsRounded(n, if Kroundup32(n) < 4 then 4 else Kroundup32(n))
  {
    MaxBuckets();
    assert PowerSized(4);
    var k := RoundsUp(n);
    if 1 <= n <= MAX_BUCKETS {
      if k >= 2 {
        PowMonotone(2, k);
        assert PowerSized(Pow2(k));
      } else {
        assert Pow2(1) == 2;
      }
      if 4 < n {
        StrictPower(2, k);
      } else if k > 0 {
        StrictPower(k - 1, 2);
      }
    }
  }

  lemma {:induction false} RoundedUnique(n: nat, r: nat)
    requires n < WORD && IsRounded(n, r)
    ensures Rounded(n) == r
  {
    var q := Rounded(n);
    if 4 < n <= MAX_BUCKETS {
      PowerSizesApart(q, r);
      PowerSizesApart(r, q);
    }
  }

  lemma {:induction false} PowerSizesApart(q: nat, r: nat)
    requires PowerSized(q) && PowerSized(r)
    ensures q < r ==> 2 * q <= r
  {
    var a: nat :| 2 <= a <= 31 && q == Pow2(a);
    var b: nat :| 2 <= b <= 31 && r == Pow2(b);
    if b <= a {
      PowMonotone(b, a);
    } else {
      PowMonotone(a + 1, b);
    }
  }

  lemma {:induction false} PowerSizesBounded(n: nat)
    requires PowerSized(n)
    ensures 4 <= n <= MAX_BUCKETS && (n < MAX_BUCKETS ==> PowerSized(2 * n))
  {
    MaxBuckets();
    var k: nat :| 2 <= k <= 31 && n == Pow2(k);
    PowMonotone(2, k);
    PowMonotone(k, 31);
    if n < MAX_BUCKETS {
      StrictPower(k, 31);
      assert Pow2(k + 1) == 2 * n;
    }
  }

  /** Asking for a little less than a power of two gives it, a little more doubles it. */
  lemma {:induction false} RoundedNearby(n: nat)
    requires PowerSized(n)
    ensures 4 <= n <= MAX_BUCKETS && Rounded(n - 1) == n
    ensures n + 1 < WORD && Rounded(n + 1) == if n < MAX_BUCKETS then 2 * n else 4
  {
    PowerSizesBounded(n);
    RoundedUnique(n - 1, n);
    if n < MAX_BUCKETS {
      RoundedUnique(n + 1, 2 * n);
    }
  }

  lemma {:induction false} StrictPower(k: nat, m: nat)
    requires Pow2(k) < Pow2(m)
    ensures k < m
  {
    if m <= k {
      PowMonotone(m, k);
    }
  }

  // ---------- The in-place rehash ----------

  /** Find the new bucket of a key: the first empty one on its probe path. */
  method FreeBucket<K, V>(hash: K -> nat, newFlags: array<Flag>, key: K, ghost last: nat) returns (i: nat, ghost t: nat)
    requires PowerSized(newFlags.Length)
    requires newFlags[Probe(hash(key), last, newFlags.Length)] == Empty && last < newFlags.Length
    ensures i < newFlags.Length && newFlags[i] == Empty && PathAt(newFlags[..], hash(key), i, t)
  {
    var n := newFlags.Length;
    ghost var k: nat :| 2 <= k <= 31 && n == Pow2(k);
    i := hash(key) % n;
    var step := 0;
    while newFlags[i] != Empty
      invariant step <= last && i < n && i == Probe(hash(key), step, n)
      invariant forall s: nat :: s < step ==> newFlags[..][Probe(hash(key), s, n)] != Empty
      decreases last - step
    {
      NextProbe(hash(key), step, k);
      step := step + 1;
      i := (i + step) % WORD % n;
    }
    t := step;
  }

  /** Settle the entry in hand; whatever waits in its bucket is in hand next. */
  method Settle<K, V>(hash: K -> nat, flags: array<Flag>, newFlags: array<Flag>, keys: array<K>, vals: array<V>,
                      key0: K, val0: V, ghost m: map<K, V>, ghost size: nat)
    requires Apart(flags, newFlags, keys, vals)
    requires Moving(hash, flags[..], newFlags[..], keys[..], vals[..], Carrying(key0, val0), m, size)
    modifies flags, newFlags, keys, vals
    ensures Moving(hash, flags[..], newFlags[..], keys[..], vals[..], Nothing, m, size)
    ensures forall i :: 0 <= i < flags.Length && old(flags[i]) != Live ==> flags[i] != Live
  {
    var key, val := key0, val0;
    while true
      invariant Moving(hash, flags[..], newFlags[..], keys[..], vals[..], Carrying(key, val), m, size)
      invariant forall i :: 0 <= i < flags.Length && old(flags[i]) != Live ==> flags[i] != Live
      decreases |LiveSet(flags[..])|
    {
      ghost var f, g, ks, vs := flags[..], newFlags[..], keys[..], vals[..];
      ghost var last := RoomForHand(hash, f, g, ks, vs, Carrying(key, val), m, size);
      ghost var t;
      var i;
      i, t := FreeBucket<K, V>(hash, newFlags, key, last);
      newFlags[i] := Live;
      assert newFlags[..] == g[i := Live];
      if i < flags.Length && flags[i] == Live {
        KickOut(hash, f, g, ks, vs, Carrying(key, val), m, size, i, t);
        var tmpKey, tmpVal := keys[i], vals[i];
        keys[i], vals[i], flags[i] := key, val, Deleted;
        assert keys[..] == ks[i := key] && vals[..] == vs[i := val] && flags[..] == f[i := Deleted];
        key, val := tmpKey, tmpVal;
      } else {
        PutDown(hash, f, g, ks, vs, Carrying(key, val), m, size, i, t);
        keys[i], vals[i] := key, val;
        assert keys[..] == ks[i := key] && vals[..] == vs[i := val];
        return;
      }
    }
  }

  /** Move every old entry to its new bucket. */
  method Rehash<K, V>(hash: K -> nat, flags: array<Flag>, newFlags: array<Flag>, keys: array<K>, vals: array<V>,
                      ghost m: map<K, V>, ghost size: nat)
    requires Apart(flags, newFlags, keys, vals)
    requires Moving(hash, flags[..], newFlags[..], keys[..], vals[..], Nothing, m, size)
    modifies flags, newFlags, keys, vals
    ensures Moving(hash, flags[..], newFlags[..], keys[..], vals[..], Nothing, m, size)
    ensures forall i :: 0 <= i < flags.Length ==> flags[i] != Live
  {
    var j := 0;
    while j != flags.Length
      invariant 0 <= j <= flags.Length
      invariant Moving(hash, flags[..], newFlags[..], keys[..], vals[..], Nothing, m, size)
      invariant forall i :: 0 <= i < j ==> flags[i] != Live
    {
      if flags[j] == Live {
        ghost var f := flags[..];
        PickUp(hash, f, newFlags[..], keys[..], vals[..], m, size, j);
        var key, val := keys[j], vals[j];
        flags[j] := Deleted;
        assert flags[..] == f[j := Deleted];
        Settle(hash, flags, newFlags, keys, vals, key, val, m, size);
      }
      j := j + 1;
    }
  }

  method Realloc<T(0)>(a: array<T>, n: nat) returns (b: array<T>)
    ensures fresh(b) && b.Length == n
    ensures forall i :: 0 <= i < n && i < a.Length ==> b[i] == a[i]
  {
    b := new T[n];
    var i := 0;
    while i < n && i < a.Length
      invariant 0 <= i <= n && i <= a.Length
      invariant forall k :: 0 <= k < i ==> b[k] == a[k]
    {
      b[i] := a[i];
      i := i + 1;
    }
  }

  // ---------- The table as a value ----------

  /** Counters, keys and paths are as they should be. */
  ghost predicate Healthy<K, V>(hash: K -> nat, n: nat, size: nat, used: nat, upper: nat,
                                f: seq<Flag>, keys: seq<K>, vals: seq<V>) {
    && |f| == |keys| == |vals| == n
    && (n == 0 || PowerSized(n)) && upper == (if n == 0 then 0 else Upper(n))
    && size == |LiveSet(f)| && used == |UsedSet(f)|
    && (n < MAX_BUCKETS ==> used <= upper)
    && DistinctKeys(f, keys) && (n > 0 ==> AllOnPath(hash, f, keys))
  }

  ghost predicate BucketOf<K>(f: seq<Flag>, keys: seq<K>, x: nat, key: K) {
    x < |f| <= |keys| && f[x] == Live && keys[x] == key
  }

  lemma {:induction false} ReadyToMove<K, V>(
    hash: K -> nat, f: seq<Flag>, g: seq<Flag>, keys: seq<K>, vals: seq<V>, keys': seq<K>, vals': seq<V>, size: nat)
    requires DistinctKeys(f, keys) && |f| == |keys| == |vals| && |f| <= |keys'| == |vals'| && |g| <= |keys'|
    requires keys'[..|f|] == keys && vals'[..|f|] == vals
    requires PowerSized(|g|) && size == |LiveSet(f)| < |g| && forall i :: 0 <= i < |g| ==> g[i] == Empty
    ensures Moving(hash, f, g, keys', vals', Nothing, Pairs(f, keys, vals), size)
  {
    SamePrefix(f, keys, vals, keys', vals');
    StartMoving(hash, f, g, keys', vals', Pairs(f, keys, vals), size);
  }

  lemma {:induction false} Resized<K, V>(
    hash: K -> nat, n: nat, f: seq<Flag>, g: seq<Flag>, keys: seq<K>, vals: seq<V>, m: map<K, V>, size: nat)
    requires Moving(hash, f, g, keys, vals, Nothing, m, size) && n == |g| && size < Upper(n)
    requires forall i :: 0 <= i < |f| ==> f[i] != Live
    ensures Healthy(hash, n, size, size, Upper(n), g, keys[..n], vals[..n]) && Pairs(g, keys[..n], vals[..n]) == m
  {
    FinishMoving(hash, f, g, keys, vals, m, size);
  }

  /** How many buckets to give a table that asks for newN. */
  method BucketCount(newN: nat) returns (n: nat)
    requires newN < WORD
    ensures n == Rounded(newN) && PowerSized(n)
  {
    n := Kroundup32(newN);
    if n < 4 {
      n := 4;
    }
    RoundedIsPower(newN);
    RoundedUnique(newN, n);
  }

  /** All pairs into n buckets: longer arrays first if need be, then the rehash, then
      shorter arrays. */
  method MoveAll<K(==,0), V(0)>(hash: K -> nat, flags: array<Flag>, keys: array<K>, vals: array<V>, n: nat, size: nat,
                             ghost used: nat, ghost upper: nat, ghost m: map<K, V>)
    returns (newFlags: array<Flag>, newKeys: array<K>, newVals: array<V>)
    requires (flags as object) != keys && (flags as object) != vals && (keys as object) != vals
    requires Healthy(hash, flags.Length, size, used, upper, flags[..], keys[..], vals[..])
    requires PowerSized(n) && size < Upper(n) && m == Pairs(flags[..], keys[..], vals[..])
    modifies flags, keys, vals
    ensures fresh(newFlags) && (newKeys == keys || fresh(newKeys)) && (newVals == vals || fresh(newVals))
    ensures (newKeys as object) != newVals && (newFlags as object) != newKeys && (newFlags as object) != newVals
    ensures Healthy(hash, n, size, size, Upper(n), newFlags[..], newKeys[..], newVals[..])
    ensures Pairs(newFlags[..], newKeys[..], newVals[..]) == m
  {
    ghost var f, ks, vs := flags[..], keys[..], vals[..];
    SizesFit(n);
    newFlags := new Flag[n](_ => Empty);
    newKeys, newVals := Lengthened(keys, vals, n);
    ReadyToMove(hash, f, newFlags[..], ks, vs, newKeys[..], newVals[..], size);
    Rehash(hash, flags, newFlags, newKeys, newVals, m, size);
    Resized(hash, n, flags[..], newFlags[..], newKeys[..], newVals[..], m, size);
    newKeys, newVals := Shrunk(newKeys, newVals, flags.Length, n);
  }

  // ---------- The search ----------

  /** The search for key is at its step-th probe, has not found it, and last saw a
      deleted bucket at site, if it saw one. */
  ghost predicate Searching<K>(f: seq<Flag>, keys: seq<K>, key: K, h: nat, step: nat, i: nat, site: nat) {
    && PowerSized(|f|) && |f| == |keys| && i == Probe(h, step, |f|)
    && PassedBy(f, keys, key, h, step)
    && (site == |f| || (site < |f| && f[site] == Deleted && OnPath(f, h, site)))
    && (site == |f| ==> LiveBefore(f, h, step))
  }

  ghost predicate LiveBefore(f: seq<Flag>, h: nat, step: nat)
    requires |f| > 0
  {
    forall s: nat :: s < step ==> f[Probe(h, s, |f|)] == Live
  }

  lemma {:induction false} SearchStarts<K>(f: seq<Flag>, keys: seq<K>, key: K, h: nat)
    requires PowerSized(|f|) && |f| == |keys|
    ensures Searching(f, keys, key, h, 0, h % |f|, |f|)
  {
    assert Tri(0) == 0;
  }

  lemma {:induction false} SearchGoesOn<K>(f: seq<Flag>, keys: seq<K>, key: K, h: nat, step: nat, i: nat, site: nat)
    requires Searching(f, keys, key, h, step, i, site) && PassesBy(f, keys, key, i)
    ensures Searching(f, keys, key, h, step + 1, (i + (step + 1)) % WORD % |f|, if f[i] == Deleted then i else site)
    ensures step + 1 < 2 * |f| ==>
      ((i + (step + 1)) % WORD % |f| == h % |f| <==> step + 1 == 2 * |f| - 1)
  {
    var k: nat :| 2 <= k <= 31 && |f| == Pow2(k);
    NextProbe(h, step, k);
    if f[i] == Deleted {
      PassedPath(f, keys, key, h, step);
    }
    if step + 1 < 2 * |f| {
      ProbeReturns(h, step + 1, k);
      assert Tri(0) == 0;
    }
  }

  /** What a search for a place must return. */
  ghost predicate GoodSite<K, V>(hash: K -> nat, f: seq<Flag>, keys: seq<K>, vals: seq<V>, key: K, x: nat) {
    && DistinctKeys(f, keys) && 0 < |f| == |keys| == |vals| && x < |f|
    && (key in Pairs(f, keys, vals) ==> BucketOf(f, keys, x, key))
    && (key !in Pairs(f, keys, vals) ==>
          if |LiveSet(f)| < |f| then f[x] != Live && OnPath(f, hash(key), x) else f[x] == Live && keys[x] != key)
  }

  lemma {:induction false} SearchStopped<K, V>(
    hash: K -> nat, f: seq<Flag>, keys: seq<K>, vals: seq<V>, key: K, step: nat, i: nat, site: nat)
    requires Searching(f, keys, key, hash(key), step, i, site) && !PassesBy(f, keys, key, i)
    requires DistinctKeys(f, keys) && AllOnPath(hash, f, keys) && |vals| == |f|
    ensures GoodSite(hash, f, keys, vals, key, if f[i] == Empty && site != |f| then site else i)
    ensures f[i] == Empty ==> key !in Pairs(f, keys, vals)
  {
    CountsBounded(f);
    if f[i] == Empty {
      EmptyMeansAbsent(hash, f, keys, vals, key, step);
      PassedPath(f, keys, key, hash(key), step);
    }
  }

  lemma {:induction false} SearchWrapped<K, V>(
    hash: K -> nat, f: seq<Flag>, keys: seq<K>, vals: seq<V>, key: K, step: nat, i: nat, site: nat)
    requires Searching(f, keys, key, hash(key), step, i, site) && step == 2 * |f| - 1 && i == Probe(hash(key), 0, |f|)
    requires DistinctKeys(f, keys) && |vals| == |f|
    ensures key !in Pairs(f, keys, vals)
    ensures GoodSite(hash, f, keys, vals, key, if site == |f| then i else site)
  {
    WrapMeansAbsent(f, keys, vals, key, hash(key), step);
    CountsBounded(f);
    if site == |f| {
      var k: nat :| 2 <= k <= 31 && |f| == Pow2(k);
      AllLive(f, hash(key), step, k);
      assert PassesBy(f, keys, key, Probe(hash(key), 0, |f|));
    }
  }

  // ---------- The table ----------

  class Table<K(==,0), V(0)> {
    const hash: K -> nat
    var nBuckets: nat
    var size: nat
    var nOccupied: nat
    var upperBound: nat
    var flags: array<Flag>
    var keys: array<K>
    var vals: array<V>

    ghost predicate Valid()
      reads this, flags, keys, vals
    {
      Apart(this, flags, keys, vals)
      && Healthy(hash, nBuckets, size, nOccupied, upperBound, flags[..], keys[..], vals[..])
    }

    /** The finite map that the table holds. */
    ghost function Contents(): (m: map<K, V>)
      requires Valid()
      reads this, flags, keys, vals
    {
      Pairs(flags[..], keys[..], vals[..])
    }

    /** The bucket holds key. */
    ghost predicate At(x: nat, key: K)
      requires Valid()
      reads this, flags, keys, vals
    {
      BucketOf(flags[..], keys[..], x, key)
    }

    constructor (hash: K -> nat)
      ensures Valid() && fresh(flags) && fresh(keys) && fresh(vals) && this.hash == hash
      ensures Contents() == map[]
    {
      this.hash := hash;
      nBuckets, size, nOccupied, upperBound := 0, 0, 0, 0;
      flags := new Flag[0];
      keys := new K[0];
      vals := new V[0];
      new;
      assert LiveSet(flags[..]) == {} && UsedSet(flags[..]) == {};
      assert Contents() == map[];
    }

    /** As many pairs as the size says. */
    lemma {:induction false} Counted()
      requires Valid()
      ensures |Contents()| == size
    {
      PairsCounted(flags[..], keys[..], vals[..]);
    }

    /** Forget all pairs, keep the buckets. */
    method Clear()
      requires Valid()
      modifies this`size, this`nOccupied, flags
      ensures Valid() && Contents() == map[]
    {
      if nBuckets > 0 {
        var i := 0;
        while i < nBuckets
          invariant 0 <= i <= nBuckets && flags.Length == nBuckets
          invariant forall k :: 0 <= k < i ==> flags[k] == Empty
          modifies flags
        {
          flags[i] := Empty;
          i := i + 1;
        }
        size, nOccupied := 0, 0;
      }
      assert LiveSet(flags[..]) == {} by {
        if nBuckets == 0 {
          assert flags[..] == [];
        }
      }
      if nBuckets > 0 {
        assert UsedSet(flags[..]) == {};
      }
      NoneLive(flags[..], keys[..], vals[..]);
    }

    /** Find a key's bucket; the number of buckets if it has none. */
    method Get(key: K) returns (x: nat)
      requires Valid()
      ensures key in Contents() ==> At(x, key) && Contents()[key] == vals[x]
      ensures key !in Contents() ==> x == nBuckets
    {
      if nBuckets == 0 {
        return 0;
      }
      var n, h := nBuckets, hash(key);
      ghost var f, ks, vs := flags[..], keys[..], vals[..];
      ghost var site: nat := n;
      var i: nat := h % n;
      var last, step := i, 0;
      SearchStarts(f, ks, key, h);
      while flags[i] != Empty && (flags[i] == Deleted || keys[i] != key)
        invariant step < 2 * n - 1 && i < n && Searching(f, ks, key, h, step, i, site)
        decreases 2 * n - step
      {
        SearchGoesOn(f, ks, key, h, step, i, site);
        site := if f[i] == Deleted then i else site;
        step := step + 1;
        i := (i + step) % WORD % n;
        if i == last {
          SearchWrapped(hash, f, ks, vs, key, step, i, site);
          return n;
        }
      }
      SearchStopped(hash, f, ks, vs, key, step, i, site);
      x := if flags[i] != Live then n else i;
    }

    /** Change the number of buckets, or just drop the tombstones; nothing happens
        if the pairs would not fit.  No pair is lost or changed. */
    method Resize(newN: nat)
      requires Valid() && newN < WORD
      modifies this, flags, keys, vals
      ensures Valid() && Contents() == old(Contents())
      ensures keys == old(keys) || fresh(keys)
      ensures vals == old(vals) || fresh(vals)
      ensures if old(size) < Upper(Rounded(newN)) then fresh(flags) else flags == old(flags) && flags[..] == old(flags[..])
      ensures old(size) < Upper(Rounded(newN)) ==>
        nBuckets == Rounded(newN) && nOccupied == size && upperBound == Upper(nBuckets)
      ensures old(size) >= Upper(Rounded(newN)) ==>
        nBuckets == old(nBuckets) && nOccupied == old(nOccupied) && upperBound == old(upperBound)
      ensures size == old(size)
    {
      var n := BucketCount(newN);
      if size >= Upper(n) {
        return;
      }
      ghost var m := Contents();
      var newFlags, newKeys, newVals := MoveAll(hash, flags, keys, vals, n, size, nOccupied, upperBound, m);
      flags, keys, vals := newFlags, newKeys, newVals;
      nBuckets, nOccupied, upperBound := n, size, Upper(n);
      assert Contents() == m;
    }

    /** Bring a full table to another size, or drop its tombstones. */
    method MakeRoom()
      requires Valid() && nOccupied >= upperBound
      modifies this, flags, keys, vals
      ensures Valid() && Contents() == old(Contents()) && size == old(size)
      ensures flags == old(flags) || fresh(flags)
      ensures keys == old(keys) || fresh(keys)
      ensures vals == old(vals) || fresh(vals)
      ensures nBuckets > 0 && (nOccupied < upperBound || nBuckets == MAX_BUCKETS)
      ensures if flags == old(flags) then flags[..] == old(flags[..]) else NoTombstones(flags[..])
      ensures old(nBuckets) < 0x8000_0000 ==> nBuckets == RoomSize(old(nBuckets), size)
    {
      ghost var n, used := nBuckets, nOccupied;
      CountsBounded(flags[..]);
      RoomMade(n, size, used, upperBound);
      var wanted;
      if nBuckets > size * 2 % WORD {
        wanted := nBuckets - 1;   // drop the tombstones
      } else {
        wanted := nBuckets + 1;   // grow
      }
      Resize(wanted);
      if n < MAX_BUCKETS {
        assert nBuckets == Rounded(wanted) && nOccupied == size;
        RoomSizeIs(n, size);
      }
      CountsEqual(flags[..]);
    }

    /** Make room for one more key. */
    method EnsureRoom()
      requires Valid()
      modifies this, flags, keys, vals
      ensures Valid() && Contents() == old(Contents()) && size == old(size)
      ensures flags == old(flags) || fresh(flags)
      ensures keys == old(keys) || fresh(keys)
      ensures vals == old(vals) || fresh(vals)
      ensures nBuckets > 0 && (nOccupied < upperBound || nBuckets == MAX_BUCKETS)
      ensures if flags == old(flags) then flags[..] == old(flags[..]) else NoTombstones(flags[..])
      ensures old(nOccupied) < old(upperBound) ==> nBuckets == old(nBuckets)
      ensures old(nOccupied) >= old(upperBound) && old(nBuckets) < 0x8000_0000 ==>
        nBuckets == RoomSize(old(nBuckets), size)
    {
      if nOccupied >= upperBound {
        MakeRoom();
      } else {
        CountsBounded(flags[..]);
      }
    }

    /** The bucket for a key to be put: its own, else one that can take it. */
    method FindSite(key: K) returns (x: nat)
      requires Valid() && nBuckets > 0
      ensures GoodSite(hash, flags[..], keys[..], vals[..], key, x)
    {
      var n, h := nBuckets, hash(key);
      ghost var f, ks, vs := flags[..], keys[..], vals[..];
      x := n;
      var site: nat := n;
      var i: nat := h % n;
      SearchStarts(f, ks, key, h);
      if flags[i] == Empty {
        x := i;
        SearchStopped(hash, f, ks, vs, key, 0, i, site);
      } else {
        var last, step := i, 0;
        while flags[i] != Empty && (flags[i] == Deleted || keys[i] != key)
          invariant step < 2 * n - 1 && i < n && x == n && Searching(f, ks, key, h, step, i, site)
          decreases 2 * n - step
        {
          SearchGoesOn(f, ks, key, h, step, i, site);
          if flags[i] == Deleted {
            site := i;
          }
          step := step + 1;
          i := (i + step) % WORD % n;
          if i == last {
            SearchWrapped(hash, f, ks, vs, key, step, i, site);
            x := site;
            break;
          }
        }
        if x == n {
          if step < 2 * n - 1 {
            SearchStopped(hash, f, ks, vs, key, step, i, site);
          }
          if flags[i] == Empty && site != n {
            x := site;
          } else {
            x := i;
          }
        }
      }
    }

    /** Put a key in, unless it is there.  A new key gets whatever value its bucket
        holds; ret is 0 if the key was there, 1 or 2 if it took an empty or deleted
        bucket.  Only a table of 2^31 live buckets cannot take a new key: it then
        reports that the key is there. */
    method Put(key: K) returns (x: nat, ret: int)
      requires Valid()
      modifies this, flags, keys, vals
      ensures Valid() && x < nBuckets
      ensures flags == old(flags) || fresh(flags)
      ensures keys == old(keys) || fresh(keys)
      ensures vals == old(vals) || fresh(vals)
      ensures key in old(Contents()) ==> ret == 0 && At(x, key) && Contents() == old(Contents())
      ensures key !in old(Contents()) && old(size) < 0x8000_0000 ==>
        (ret == 1 || ret == 2) && At(x, key) && Contents() == old(Contents())[key := vals[x]]
      ensures ret == 2 ==> flags == old(flags) && old(flags[..])[x] == Deleted
      ensures ret == 1 && flags == old(flags) ==> old(flags[..])[x] == Empty
      ensures key !in old(Contents()) && old(size) >= 0x8000_0000 ==>
        ret == 0 && !At(x, key) && Contents() == old(Contents())
    {
      ghost var f0 := flags[..];
      EnsureRoom();
      x := FindSite(key);
      ghost var f := flags[..];
      assert if flags == old(flags) then f == f0 else f[x] != Deleted;
      ret := PutAt(x, key);
      assert ret == if f[x] == Live then 0 else if f[x] == Empty then 1 else 2;
    }

    /** Put a key in the bucket that the search came to. */
    method PutAt(x: nat, key: K) returns (ret: int)
      requires Valid() && nBuckets > 0 && (nOccupied < upperBound || nBuckets == MAX_BUCKETS)
      requires GoodSite(hash, flags[..], keys[..], vals[..], key, x)
      modifies this`size, this`nOccupied, flags, keys
      ensures Valid() && x < nBuckets
      ensures ret == if old(flags[x]) == Live then 0 else if old(flags[x]) == Empty then 1 else 2
      ensures key in old(Contents()) ==> ret == 0 && At(x, key) && Contents() == old(Contents())
      ensures key !in old(Contents()) && old(size) < MAX_BUCKETS ==>
        ret != 0 && At(x, key) && Contents() == old(Contents())[key := vals[x]]
      ensures key !in old(Contents()) && old(size) >= MAX_BUCKETS ==>
        ret == 0 && !At(x, key) && Contents() == old(Contents())
    {
      SiteFits(nBuckets, size, flags[..], keys[..], vals[..], key, x, hash);
      if flags[x] == Live {
        ret := 0;
      } else {
        ret := Occupy(x, key);
      }
    }

    /** Let a new key take an empty (1) or deleted (2) bucket. */
    method Occupy(x: nat, key: K) returns (ret: int)
      requires Valid() && nBuckets > 0 && GoodSite(hash, flags[..], keys[..], vals[..], key, x)
      requires flags[x] != Live && (nOccupied < upperBound || nBuckets == MAX_BUCKETS)
      modifies this`size, this`nOccupied, flags, keys
      ensures Valid() && ret == (if old(flags[x]) == Empty then 1 else 2) && At(x, key) && Contents() == old(Contents())[key := vals[x]]
    {
      ghost var f, ks, vs := flags[..], keys[..], vals[..];
      PutFits(hash, nBuckets, size, nOccupied, upperBound, f, ks, vs, key, x);
      if flags[x] == Empty {
        Store(flags, keys, x, key);
        size, nOccupied := size + 1, nOccupied + 1;
        ret := 1;
      } else {
        Store(flags, keys, x, key);
        size := size + 1;
        ret := 2;
      }
    }

    /** Assign the value of a live bucket. */
    method SetValue(x: nat, v: V)
      requires Valid() && x < nBuckets && flags[x] == Live
      modifies vals
      ensures Valid() && Contents() == old(Contents())[keys[x] := v]
    {
      WritePairs(flags[..], keys[..], vals[..], x, v);
      ghost var vs := vals[..];
      vals[x] := v;
      assert vals[..] == vs[x := v];
    }

    /** Delete the pair in a bucket, if there is one. */
    method Del(x: nat)
      requires Valid() && x <= nBuckets
      modifies this`size, flags
      ensures Valid()
      ensures Contents() == if x < nBuckets && old(flags[x]) == Live then old(Contents()) - {keys[x]} else old(Contents())
    {
      if x != nBuckets && flags[x] == Live {
        ghost var f := flags[..];
        DeleteKeeps(hash, f, keys[..], vals[..], x);
        LiveRemoved(f, x);
        flags[x] := Deleted;
        size := size - 1;
        assert flags[..] == f[x := Deleted];
      }
    }
  }

  predicate NoTombstones(f: seq<Flag>) { forall i :: 0 <= i < |f| ==> f[i] != Deleted }

  /** With as many buckets live as in use, none is deleted. */
  lemma {:induction false} CountsEqual(f: seq<Flag>)
    ensures |UsedSet(f)| == |LiveSet(f)| ==> NoTombstones(f)
  {
    if i :| 0 <= i < |f| && f[i] == Deleted {
      assert LiveSet(f) <= UsedSet(f) - {i};
      SubsetSize(LiveSet(f), UsedSet(f) - {i});
    }
  }

  lemma {:induction false} NoneLive<K, V>(f: seq<Flag>, keys: seq<K>, vals: seq<V>)
    requires DistinctKeys(f, keys) && |f| <= |vals| && LiveSet(f) == {}
    ensures Pairs(f, keys, vals) == map[]
  {
    forall k | k in Pairs(f, keys, vals)
      ensures false
    {
      NoneHeld(f, keys, k);
    }
  }

  // ---------- Facts the methods need ----------

  lemma {:induction false} SamePrefix<K, V>(f: seq<Flag>, keys: seq<K>, vals: seq<V>, keys': seq<K>, vals': seq<V>)
    requires DistinctKeys(f, keys) && |f| == |keys| == |vals| && |f| <= |keys'| == |vals'|
    requires keys'[..|f|] == keys && vals'[..|f|] == vals
    ensures DistinctKeys(f, keys') && Pairs(f, keys', vals') == Pairs(f, keys, vals)
  {
    forall i | 0 <= i < |f|
      ensures keys'[i] == keys[i] && vals'[i] == vals[i]
    {
      assert keys'[..|f|][i] == keys'[i] && vals'[..|f|][i] == vals'[i];
    }
    var m := Pairs(f, keys, vals);
    forall k | k in m
      ensures HeldIn(f, keys', k)
    {
      assert HeldIn(f, keys, k);
      var i :| 0 <= i < |f| && f[i] == Live && keys[i] == k;
      assert keys'[i] == k;
    }
    RepresentsOne(f, keys', vals', Pairs(f, keys', vals'), m);
  }

  method Store<K>(flags: array<Flag>, keys: array<K>, x: nat, key: K)
    requires x < flags.Length == keys.Length && (flags as object) != keys
    modifies flags, keys
    ensures flags[..] == old(flags[..])[x := Live] && keys[..] == old(keys[..])[x := key]
  {
    keys[x] := key;
    flags[x] := Live;
  }

  method Lengthened<K(0), V(0)>(keys: array<K>, vals: array<V>, n: nat) returns (keys': array<K>, vals': array<V>)
    requires keys.Length == vals.Length && (keys as object) != vals
    ensures keys'.Length == vals'.Length == (if keys.Length < n then n else keys.Length) && (keys' as object) != vals'
    ensures keys'[..keys.Length] == keys[..] && vals'[..keys.Length] == vals[..]
    ensures keys' == keys || fresh(keys')
    ensures vals' == vals || fresh(vals')
  {
    keys', vals' := keys, vals;
    if keys.Length < n {
      keys' := Realloc(keys, n);
      vals' := Realloc(vals, n);
    }
  }

  method Shrunk<K(0), V(0)>(keys: array<K>, vals: array<V>, m: nat, n: nat) returns (keys': array<K>, vals': array<V>)
    requires n <= keys.Length == vals.Length && (m <= n ==> keys.Length == n) && (keys as object) != vals
    ensures keys'.Length == vals'.Length == n && (keys' as object) != vals'
    ensures keys'[..] == keys[..n] && vals'[..] == vals[..n]
    ensures keys' == keys || fresh(keys')
    ensures vals' == vals || fresh(vals')
  {
    keys', vals' := keys, vals;
    if m > n {
      keys' := Realloc(keys, n);
      vals' := Realloc(vals, n);
    } else {
      assert keys[..] == keys[..n] && vals[..] == vals[..n];
    }
  }

  /** The size a full table gets: four at first, the same if half of its buckets are not
      live, twice as many else. */
  function RoomSize(n: nat, size: nat): nat {
    if n == 0 then 4 else if n > 2 * size then n else 2 * n
  }

  lemma {:induction false} RoomMade(n: nat, size: nat, used: nat, upper: nat)
    requires n == 0 || PowerSized(n)
    requires upper == (if n == 0 then 0 else Upper(n)) && size <= used <= n && used >= upper
    ensures n <= MAX_BUCKETS && (n > 0 ==> n >= 4)
    ensures var newN := if n > size * 2 % WORD then n - 1 else n + 1;
      && newN < WORD && (n == MAX_BUCKETS || size < Upper(Rounded(newN))) && 4 <= Rounded(newN) <= MAX_BUCKETS
  {
    if n == 0 {
      RoundOne();
    } else {
      RoundedNearby(n);
      UpperBelow(n);
      if n < MAX_BUCKETS {
        assert size * 2 % WORD == size * 2;
        PowerSizesBounded(2 * n);
      }
    }
  }

  /** The number of buckets that is asked for is rounded to that size. */
  lemma {:induction false} RoomSizeIs(n: nat, size: nat)
    requires (n == 0 || PowerSized(n)) && size <= n < MAX_BUCKETS
    ensures Rounded(if n > size * 2 % WORD then n - 1 else n + 1) == RoomSize(n, size)
  {
    assert size * 2 % WORD == size * 2;
    if n == 0 {
      RoundOne();
    } else {
      RoundedNearby(n);
    }
  }

  /** What storing a key at its place does. */
  lemma {:induction false} PutFits<K, V>(hash: K -> nat, n: nat, size: nat, used: nat, upper: nat,
                                         f: seq<Flag>, keys: seq<K>, vals: seq<V>, key: K, x: nat)
    requires Healthy(hash, n, size, used, upper, f, keys, vals) && n > 0 && GoodSite(hash, f, keys, vals, key, x)
    requires used < upper || n == MAX_BUCKETS
    requires f[x] != Live
    ensures
      var used' := if f[x] == Empty then used + 1 else used;
      && key !in Pairs(f, keys, vals)
      && Healthy(hash, n, size + 1, used', upper, f[x := Live], keys[x := key], vals)
      && BucketOf(f[x := Live], keys[x := key], x, key)
      && Pairs(f[x := Live], keys[x := key], vals) == Pairs(f, keys, vals)[key := vals[x]]
  {
    CountsBounded(f);
    SizesFit(n);
    StoreKeeps(hash, f, keys, vals, key, x);
    LiveAdded(f, x);
  }

  lemma {:induction false} SiteFits<K, V>(
    n: nat, size: nat, f: seq<Flag>, keys: seq<K>, vals: seq<V>, key: K, x: nat, hash: K -> nat)
    requires GoodSite(hash, f, keys, vals, key, x) && n == |f| && size == |LiveSet(f)| && PowerSized(n)
    requires |UsedSet(f)| < Upper(n) || n == MAX_BUCKETS
    ensures f[x] == Live <==> key in Pairs(f, keys, vals) || size >= MAX_BUCKETS
    ensures key in Pairs(f, keys, vals) <==> f[x] == Live && keys[x] == key
  {
    CountsBounded(f);
    SizesFit(n);
    PairsRepresent(f, keys, vals);
  }

  lemma {:induction false} SizesFit(n: nat)
    requires PowerSized(n)
    ensures 4 <= n <= MAX_BUCKETS && Upper(n) < n
  {
    RoundedNearby(n);
    UpperBelow(n);
  }

  lemma {:induction false} RoundOne()
    ensures Rounded(1) == 4
  {
  }

  lemma {:induction false} UpperBelow(n: nat)
    requires n >= 4
    ensures 0 < n / 2 < Upper(n) < n && n < Upper(2 * n)
  {
  }

  lemma {:induction false} PassedPath<K>(f: seq<Flag>, keys: seq<K>, key: K, h: nat, step: nat)
    requires PowerSized(|f|) && |f| <= |keys| && PassedBy(f, keys, key, h, step)
    ensures OnPath(f, h, Probe(h, step, |f|))
  {
    forall s: nat | s < step
      ensures f[Probe(h, s, |f|)] != Empty
    {
      assert PassesBy(f, keys, key, Probe(h, s, |f|));
    }
    assert PathAt(f, h, Probe(h, step, |f|), step);
    PathShortens(f, h, Probe(h, step, |f|), step);
  }

  lemma {:induction false} AllLive(f: seq<Flag>, h: nat, m: nat, k: nat)
    requires |f| == Pow2(k) <= m && forall s: nat :: s < m ==> f[Probe(h, s, |f|)] == Live
    ensures forall i :: 0 <= i < |f| ==> f[i] == Live
  {
    forall i | 0 <= i < |f|
      ensures f[i] == Live
    {
      var t := ProbeCovers(h, i, k);
    }
  }
}
