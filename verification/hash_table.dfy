/**
  The chained hash table: insertion if absent, lookup, removal, clearing and
  destruction, over a pool whose entries go back and forth between the chains and
  a free list.
*/
module HashTables {
  import opened HashChains

  // ---------- What a change of the lists does to what they carry ----------

  /** The chain of bucket i has one more entry, the others are the same. */
  predicate Longer(lists: seq<seq<nat>>, lists': seq<seq<nat>>, cap: nat, i: nat, p: nat) {
    |lists'| == |lists| == cap + 1
    && forall h :: 0 <= h < cap ==> lists'[h] == if h == i then lists[i] + [p] else lists[h]
  }

  /** Buckets' entries carry what they carried; p may be new. */
  predicate Undisturbed<D(==)>(pool: seq<Entry<D>>, pool': seq<Entry<D>>, owner': seq<nat>, cap: nat, p: nat) {
    && |pool| <= |pool'| == |owner'|
    && forall q :: 0 <= q < |pool| && q != p && owner'[q] < cap ==>
         pool'[q].data == pool[q].data && pool'[q].hash == pool[q].hash
  }

  lemma {:induction false} CarriesAppended<K, D>(
    pool: seq<Entry<D>>, cap: nat, lists: seq<seq<nat>>, key: D -> K, hash: K -> nat, chains: seq<seq<D>>,
    i: nat, p: nat, d: D, pool': seq<Entry<D>>, lists': seq<seq<nat>>, owner': seq<nat>)
    requires Carries(pool, cap, lists, key, hash, chains) && i < cap
    requires Shape(pool', cap, lists', owner', NIL) && Longer(lists, lists', cap, i, p)
    requires Undisturbed(pool, pool', owner', cap, p)
    requires p < |pool'| && pool'[p].data == Has(d) && pool'[p].hash == hash(key(d))
    ensures Carries(pool', cap, lists', key, hash, chains[i := chains[i] + [d]])
  {
    var chains' := chains[i := chains[i] + [d]];
    forall h | 0 <= h < cap
      ensures CarriesAt(pool', lists'[h], key, hash, chains'[h])
    {
      assert ListOk(pool', cap, owner', h, lists'[h]) && CarriesAt(pool, lists[h], key, hash, chains[h]);
      forall j | 0 <= j < |lists'[h]|
        ensures lists'[h][j] < |pool'| && pool'[lists'[h][j]].data == Has(chains'[h][j])
        ensures pool'[lists'[h][j]].hash == hash(key(chains'[h][j]))
      {
        assert Member(pool', cap, owner', h, lists'[h], j);
        if h == i && j < |lists[i]| {
          assert lists'[i][j] != lists'[i][|lists[i]|];
        } else if h != i {
          assert Member(pool', cap, owner', i, lists'[i], |lists[i]|);
        }
      }
    }
  }

  /** A blank entry linked at the end of a chain, once the element is written into it. */
  lemma {:induction false} Filled<K(!new), D(!new)>(
    pool: seq<Entry<D>>, cap: nat, lists: seq<seq<nat>>, key: D -> K, hash: K -> nat, chains: seq<seq<D>>,
    i: nat, p: nat, d: D, shaped: seq<Entry<D>>, lists': seq<seq<nat>>, owner': seq<nat>, pool': seq<Entry<D>>)
    requires Carries(pool, cap, lists, key, hash, chains) && |pool| > cap > 0 && Blank(pool, cap, lists, 0)
    requires i == hash(key(d)) % cap
    requires Shape(shaped, cap, lists', owner', NIL) && Longer(lists, lists', cap, i, p)
    requires Undisturbed(pool, shaped, owner', cap, p)
    requires forall h :: 0 <= h < cap && h != i ==> lists[h] == [] ==> shaped[h] == pool[h]
    requires p < |shaped| && pool' == shaped[p := Entry(Has(d), hash(key(d)), shaped[p].next)]
    ensures Shape(pool', cap, lists', owner', NIL) && Blank(pool', cap, lists', 0)
    ensures Carries(pool', cap, lists', key, hash, chains[i := chains[i] + [d]])
  {
    SameLinks(shaped, cap, lists', owner', NIL, pool');
    CarriesAppended(pool, cap, lists, key, hash, chains, i, p, d, pool', lists', owner');
    assert ListOk(shaped, cap, owner', i, lists'[i]) && Member(shaped, cap, owner', i, lists'[i], |lists[i]|);
  }

  predicate CopyOf<D(==)>(pool: seq<Entry<D>>, was: nat, e: Entry<D>) {
    was < |pool| && e.data == pool[was].data && e.hash == pool[was].hash
  }

  /** Entry a of chain i goes, and the element at place j with it; the places before
      hold what they held, or are shifted up by one. */
  lemma {:induction false} CarriesWithout<K, D>(
    pool: seq<Entry<D>>, cap: nat, lists: seq<seq<nat>>, key: D -> K, hash: K -> nat, chains: seq<seq<D>>,
    i: nat, j: nat, list: seq<nat>, pool': seq<Entry<D>>, owner: seq<nat>)
    requires Shape(pool, cap, lists, owner, NIL) && Carries(pool, cap, lists, key, hash, chains)
    requires i < cap && j < |lists[i]| && |list| == |lists[i]| - 1 && |pool'| == |pool|
    requires forall q :: 0 <= q < |pool| && owner[q] < cap && owner[q] != i ==>
      pool'[q].data == pool[q].data && pool'[q].hash == pool[q].hash
    requires forall k :: 0 <= k < |list| ==> list[k] < |pool'| && CopyOf(pool, lists[i][if k < j then k else k + 1], pool'[list[k]])
    ensures Carries(pool', cap, lists[i := list], key, hash, chains[i := Without(chains[i], j)])
  {
    var lists', chains' := lists[i := list], chains[i := Without(chains[i], j)];
    forall h | 0 <= h < cap
      ensures CarriesAt(pool', lists'[h], key, hash, chains'[h])
    {
      assert CarriesAt(pool, lists[h], key, hash, chains[h]) && ListOk(pool, cap, owner, h, lists[h]);
      forall k | 0 <= k < |lists'[h]|
        ensures lists'[h][k] < |pool'| && pool'[lists'[h][k]].data == Has(chains'[h][k])
        ensures pool'[lists'[h][k]].hash == hash(key(chains'[h][k]))
      {
        if h != i {
          assert Member(pool, cap, owner, h, lists[h], k);
        }
      }
    }
  }

  lemma {:induction false} CarriesKept<K, D>(
    pool: seq<Entry<D>>, cap: nat, lists: seq<seq<nat>>, key: D -> K, hash: K -> nat, chains: seq<seq<D>>,
    pool': seq<Entry<D>>, lists': seq<seq<nat>>, owner: seq<nat>)
    requires Carries(pool, cap, lists, key, hash, chains) && |lists'| == |lists| && |pool| == |owner| <= |pool'|
    requires forall h :: 0 <= h < cap ==> lists'[h] == lists[h] && ListOk(pool, cap, owner, h, lists[h])
    requires forall q :: 0 <= q < |pool| && owner[q] < cap ==>
      pool'[q].data == pool[q].data && pool'[q].hash == pool[q].hash
    ensures Carries(pool', cap, lists', key, hash, chains)
  {
    forall h | 0 <= h < cap
      ensures CarriesAt(pool', lists'[h], key, hash, chains[h])
    {
      assert CarriesAt(pool, lists[h], key, hash, chains[h]);
      forall j | 0 <= j < |lists[h]|
        ensures lists[h][j] < |pool'| && pool'[lists[h][j]].data == Has(chains[h][j])
        ensures pool'[lists[h][j]].hash == hash(key(chains[h][j]))
      {
        assert Member(pool, cap, owner, h, lists[h], j);
      }
    }
  }

  /** A well-formed pool that carries the chains; one entry may be loose. */
  ghost predicate Holding<K, D>(pool: seq<Entry<D>>, cap: nat, lists: seq<seq<nat>>, owner: seq<nat>,
                                key: D -> K, hash: K -> nat, chains: seq<seq<D>>, loose: int) {
    && Shape(pool, cap, lists, owner, loose) && Blank(pool, cap, lists, 0)
    && Carries(pool, cap, lists, key, hash, chains)
  }

  lemma {:induction false} CutOnly<K, D>(pool: seq<Entry<D>>, cap: nat, lists: seq<seq<nat>>, owner: seq<nat>,
                                         key: D -> K, hash: K -> nat, chains: seq<seq<D>>, i: nat)
    requires Holding(pool, cap, lists, owner, key, hash, chains, NIL) && i < cap && |lists[i]| == 1
    ensures |chains[i]| == 1
    ensures Holding(pool[i := Empty()], cap, lists[i := []], owner, key, hash, chains[i := Without(chains[i], 0)], NIL)
  {
    assert CarriesAt(pool, lists[i], key, hash, chains[i]);
    DropOnly(pool, cap, lists, owner, i);
    CarriesWithout(pool, cap, lists, key, hash, chains, i, 0, [], pool[i := Empty()], owner);
  }

  lemma {:induction false} CutFirst<K, D>(pool: seq<Entry<D>>, cap: nat, lists: seq<seq<nat>>, owner: seq<nat>,
                                          key: D -> K, hash: K -> nat, chains: seq<seq<D>>, i: nat)
    requires Holding(pool, cap, lists, owner, key, hash, chains, NIL) && i < cap && |lists[i]| > 1
    ensures var ref := lists[i][1];
      && lists[i][0] == i && cap < ref < |pool| && |chains[i]| == |lists[i]|
      && Holding(pool[i := pool[ref]], cap, lists[i := Without(lists[i], 1)], owner[ref := cap + 1], key, hash,
                 chains[i := Without(chains[i], 0)], ref)
  {
    assert CarriesAt(pool, lists[i], key, hash, chains[i]) && ListOk(pool, cap, owner, i, lists[i]);
    ReplaceFirst(pool, cap, lists, owner, i);
    var list, pool' := Without(lists[i], 1), pool[i := pool[lists[i][1]]];
    forall k | 0 <= k < |list|
      ensures list[k] < |pool'| && CopyOf(pool, lists[i][if k < 0 then k else k + 1], pool'[list[k]])
    {
      assert k > 0 ==> lists[i][k + 1] != lists[i][0];
    }
    CarriesWithout(pool, cap, lists, key, hash, chains, i, 0, list, pool', owner);
  }

  lemma {:induction false} CutLater<K, D>(pool: seq<Entry<D>>, cap: nat, lists: seq<seq<nat>>, owner: seq<nat>,
                                          key: D -> K, hash: K -> nat, chains: seq<seq<D>>, i: nat, j: nat)
    requires Holding(pool, cap, lists, owner, key, hash, chains, NIL) && i < cap && 0 < j < |lists[i]|
    ensures var pre, ref := lists[i][j - 1], lists[i][j];
      && pre < |pool| && cap < ref < |pool| && |chains[i]| == |lists[i]|
      && Holding(pool[pre := pool[pre].(next := pool[ref].next)], cap, lists[i := Without(lists[i], j)], owner[ref := cap + 1],
                 key, hash, chains[i := Without(chains[i], j)], ref)
  {
    assert CarriesAt(pool, lists[i], key, hash, chains[i]) && ListOk(pool, cap, owner, i, lists[i]);
    var pre, ref := lists[i][j - 1], lists[i][j];
    assert Member(pool, cap, owner, i, lists[i], j - 1);
    Unlink(pool, cap, lists, owner, i, j);
    var list, pool' := Without(lists[i], j), pool[pre := pool[pre].(next := pool[ref].next)];
    CarriesWithout(pool, cap, lists, key, hash, chains, i, j, list, pool', owner);
  }

  // ---------- Order of finalization ----------

  /** Elements of a chain from place j on, last first. */
  function Backward<T>(c: seq<T>, j: nat): seq<T>
    requires j <= |c|
    decreases |c| - j
  {
    if j == |c| then [] else Backward(c, j + 1) + [c[j]]
  }

  /** Clearing a chain finalizes its first element, then the others, last first;
      destroying it takes all of them last first. */
  function Order<D>(c: seq<D>, destroy: bool): seq<D> {
    if destroy then Backward(c, 0) else if c == [] then [] else [c[0]] + Backward(c, 1)
  }

  function Orders<D>(chains: seq<seq<D>>, n: nat, destroy: bool): seq<D>
    requires n <= |chains|
  {
    if n == 0 then [] else Orders(chains, n - 1, destroy) + Order(chains[n - 1], destroy)
  }

  /** Every element of m once, and nothing else. */
  ghost predicate EachOnce<K, D(!new)>(s: seq<D>, key: D -> K, m: map<K, D>) {
    forall d {:trigger multiset(s)[d]} :: multiset(s)[d] == if key(d) in m && m[key(d)] == d then 1 else 0
  }

  lemma {:induction false} BackwardHolds<T>(c: seq<T>, j: nat)
    requires j <= |c|
    ensures multiset(Backward(c, j)) == multiset(c[j..])
    decreases |c| - j
  {
    if j < |c| {
      BackwardHolds(c, j + 1);
      assert c[j..] == [c[j]] + c[j + 1..];
    }
  }

  lemma {:induction false} OrderHolds<D>(c: seq<D>, destroy: bool)
    ensures multiset(Order(c, destroy)) == multiset(c)
  {
    if destroy {
      BackwardHolds(c, 0);
      assert c[0..] == c;
    } else if c != [] {
      BackwardHolds(c, 1);
      assert c == [c[0]] + c[1..];
    }
  }

  /** Over all buckets, every stored element comes exactly once and nothing else comes. */
  lemma {:induction false} OrdersOnce<K(!new), D(!new)>(chains: seq<seq<D>>, key: D -> K, hash: K -> nat, m: map<K, D>, destroy: bool)
    requires Represents(chains, key, hash, m)
    ensures EachOnce(Orders(chains, |chains|, destroy), key, m)
  {
    forall d
      ensures multiset(Orders(chains, |chains|, destroy))[d] == if key(d) in m && m[key(d)] == d then 1 else 0
    {
      var o: int := if key(d) in m && m[key(d)] == d then hash(key(d)) % |chains| else -1;
      forall i | 0 <= i < |chains|
        ensures multiset(Order(chains[i], destroy))[d] == if o == i then 1 else 0
      {
        OrderHolds(chains[i], destroy);
        InChainOnce(chains, key, hash, m, i, d);
      }
      OrdersSum(chains, o, |chains|, destroy, d);
    }
  }

  lemma {:induction false} OrdersSum<D>(chains: seq<seq<D>>, o: int, n: nat, destroy: bool, d: D)
    requires n <= |chains|
    requires forall i :: 0 <= i < n ==> multiset(Order(chains[i], destroy))[d] == if o == i then 1 else 0
    ensures multiset(Orders(chains, n, destroy))[d] == if 0 <= o < n then 1 else 0
    decreases n
  {
    if n > 0 {
      OrdersSum(chains, o, n - 1, destroy, d);
      var before, part := Orders(chains, n - 1, destroy), Order(chains[n - 1], destroy);
      assert Orders(chains, n, destroy) == before + part;
      CountBoth(before, part, d);
    }
  }

  lemma {:induction false} InChainOnce<K(!new), D(!new)>(chains: seq<seq<D>>, key: D -> K, hash: K -> nat, m: map<K, D>, i: nat, d: D)
    requires Represents(chains, key, hash, m) && i < |chains|
    ensures multiset(chains[i])[d] ==
      if key(d) in m && m[key(d)] == d && hash(key(d)) % |chains| == i then 1 else 0
  {
    var c := chains[i];
    assert DistinctKeys(chains[i], key);
    assert key(d) in m ==> Listed(chains, key, hash, m, key(d));
    if d in c {
      var j :| 0 <= j < |c| && c[j] == d;
      assert Right(chains, key, hash, m, i, j);
      assert c == c[..j] + [d] + c[j + 1..];
      assert d !in c[..j] && d !in c[j + 1..];
    }
  }

  // ---------- Every allocated entry, once ----------

  /** The allocated entries on the first n lists, in the order they are released. */
  function Releases(lists: seq<seq<nat>>, cap: nat, n: nat): seq<nat>
    requires n <= |lists|
  {
    if n == 0 then [] else Releases(lists, cap, n - 1) + Allocated(lists, cap, n - 1)
  }

  /** The allocated entries of one list: all of the free list, all but the first of a chain. */
  function Allocated(lists: seq<seq<nat>>, cap: nat, i: nat): seq<nat>
    requires i < |lists|
  {
    if i >= cap then Backward(lists[i], 0) else if lists[i] == [] then [] else Backward(lists[i], 1)
  }

  lemma {:induction false} InBackward<T>(c: seq<T>, j: nat, x: T)
    requires j <= |c|
    ensures x in Backward(c, j) <==> x in c[j..]
  {
    BackwardHolds(c, j);
    assert x in Backward(c, j) <==> x in multiset(Backward(c, j));
    assert x in c[j..] <==> x in multiset(c[j..]);
  }

  lemma {:induction false} CountOnce(s: seq<nat>, p: nat)
    requires forall j, k :: 0 <= j < k < |s| ==> s[j] != s[k]
    ensures multiset(s)[p] == if p in s then 1 else 0
  {
    if p in s {
      var j :| 0 <= j < |s| && s[j] == p;
      assert s == s[..j] + [p] + s[j + 1..];
      assert p !in s[..j] && p !in s[j + 1..];
    }
  }

  lemma {:induction false} ReleasedOfList<D>(pool: seq<Entry<D>>, cap: nat, lists: seq<seq<nat>>, owner: seq<nat>, i: nat, p: nat)
    requires Shape(pool, cap, lists, owner, NIL) && i <= cap && cap < p < |pool|
    ensures multiset(Allocated(lists, cap, i))[p] == if owner[p] == i then 1 else 0
  {
    var c := lists[i];
    OnListIff(pool, cap, lists, owner, i, p);
    if c != [] {
      var from := if i < cap then 1 else 0;
      BackwardHolds(c, from);
      assert c == c[..from] + c[from..] && p !in c[..from];
      CountOnce(c[from..], p);
    }
  }

  lemma {:induction false} OnListIff<D>(pool: seq<Entry<D>>, cap: nat, lists: seq<seq<nat>>, owner: seq<nat>, i: nat, p: nat)
    requires Shape(pool, cap, lists, owner, NIL) && i <= cap && cap < p < |pool|
    ensures forall j, k :: 0 <= j < k < |lists[i]| ==> lists[i][j] != lists[i][k]
    ensures i < cap && lists[i] != [] ==> lists[i][0] == i
    ensures p in lists[i] <==> owner[p] == i
  {
    assert ListOk(pool, cap, owner, i, lists[i]) && p in lists[owner[p]];
    if p in lists[i] {
      var j :| 0 <= j < |lists[i]| && lists[i][j] == p;
      assert Member(pool, cap, owner, i, lists[i], j);
    }
  }

  /** Each allocated entry is released once, when its list is. */
  lemma {:induction false} ReleasedOnce<D>(pool: seq<Entry<D>>, cap: nat, lists: seq<seq<nat>>, owner: seq<nat>, p: nat)
    requires Shape(pool, cap, lists, owner, NIL) && cap < p < |pool|
    ensures multiset(Releases(lists, cap, cap + 1))[p] == 1
  {
    forall i | 0 <= i <= cap
      ensures multiset(Allocated(lists, cap, i))[p] == if owner[p] == i then 1 else 0
    {
      ReleasedOfList(pool, cap, lists, owner, i, p);
    }
    assert p in lists[owner[p]];
    ReleasedSum(lists, cap, owner[p], cap + 1, p);
  }

  /** Every allocated entry is released once, and nothing else is. */
  predicate ReleasesEach(freed: seq<nat>, cap: nat, n: nat) {
    && (forall p :: cap < p < n ==> multiset(freed)[p] == 1)
    && (forall p :: p in freed ==> cap < p < n)
  }

  lemma {:induction false} AllReleased<D>(pool: seq<Entry<D>>, cap: nat, lists: seq<seq<nat>>, owner: seq<nat>)
    requires Shape(pool, cap, lists, owner, NIL)
    ensures ReleasesEach(Releases(lists, cap, cap + 1), cap, |pool|)
  {
    var freed := Releases(lists, cap, cap + 1);
    forall p | cap < p < |pool|
      ensures multiset(freed)[p] == 1
    {
      ReleasedOnce(pool, cap, lists, owner, p);
    }
    forall p | p in freed
      ensures cap < p < |pool|
    {
      if !(cap < p < |pool|) {
        NotReleased(pool, cap, lists, owner, cap + 1, p);
      }
    }
  }

  lemma {:induction false} NotReleased<D>(pool: seq<Entry<D>>, cap: nat, lists: seq<seq<nat>>, owner: seq<nat>, n: nat, p: nat)
    requires Shape(pool, cap, lists, owner, NIL) && n <= cap + 1 && !(cap < p < |pool|)
    ensures p !in Releases(lists, cap, n)
    decreases n
  {
    if n > 0 {
      NotReleased(pool, cap, lists, owner, n - 1, p);
      var c := lists[n - 1];
      assert ListOk(pool, cap, owner, n - 1, c);
      var from := if n - 1 < cap then 1 else 0;
      if c != [] {
        InBackward(c, from, p);
        forall j | from <= j < |c|
          ensures c[j] != p
        {
          assert Member(pool, cap, owner, n - 1, c, j);
        }
        assert p !in c[from..];
      }
    }
  }

  lemma {:induction false} ReleasedSum(lists: seq<seq<nat>>, cap: nat, o: nat, n: nat, p: nat)
    requires n <= |lists|
    requires forall i :: 0 <= i < n ==> multiset(Allocated(lists, cap, i))[p] == if o == i then 1 else 0
    ensures multiset(Releases(lists, cap, n))[p] == if o < n then 1 else 0
    decreases n
  {
    if n > 0 {
      ReleasedSum(lists, cap, o, n - 1, p);
      var before, part := Releases(lists, cap, n - 1), Allocated(lists, cap, n - 1);
      assert Releases(lists, cap, n) == before + part;
      CountBoth(before, part, p);
    }
  }

  lemma {:induction false} CountBoth<T>(s: seq<T>, t: seq<T>, p: T)
    ensures multiset(s + t)[p] == multiset(s)[p] + multiset(t)[p]
  {
  }

  // ---------- Clearing ----------

  /** The buckets below i are cleared; from i on they carry what they did. */
  ghost predicate ClearedUpTo<K, D>(pool: seq<Entry<D>>, cap: nat, lists: seq<seq<nat>>, owner: seq<nat>,
                                    key: D -> K, hash: K -> nat, chains: seq<seq<D>>, i: nat) {
    && Shape(pool, cap, lists, owner, NIL) && i <= cap == |chains| && Blank(pool, cap, lists, i)
    && (forall h :: 0 <= h < i ==> lists[h] == [])
    && (forall h :: i <= h < cap ==> CarriesAt(pool, lists[h], key, hash, chains[h]))
  }

  /** Clearing bucket i: what the pool is after its chain went to the free list. */
  lemma {:induction false} ClearedMore<K, D>(pool: seq<Entry<D>>, cap: nat, lists: seq<seq<nat>>, owner: seq<nat>,
                                             key: D -> K, hash: K -> nat, chains: seq<seq<D>>, i: nat)
    returns (owner': seq<nat>)
    requires ClearedUpTo(pool, cap, lists, owner, key, hash, chains, i) && i < cap && |lists[i]| > 1
    ensures var last := lists[i][|lists[i]| - 1];
      && cap < last < |pool| && lists[i][0] == i && lists[i][1] == pool[i].next
      && ClearedUpTo(pool[last := pool[last].(next := pool[cap].next)][cap := pool[cap].(next := pool[i].next)], cap,
                     lists[i := []][cap := lists[i][1..] + lists[cap]], owner', key, hash, chains, i + 1)
  {
    owner' := FreeChain(pool, cap, lists, owner, i);
    var last := lists[i][|lists[i]| - 1];
    var pool' := pool[last := pool[last].(next := pool[cap].next)][cap := pool[cap].(next := pool[i].next)];
    forall h | i + 1 <= h < cap
      ensures CarriesAt(pool', lists[h], key, hash, chains[h])
    {
      assert CarriesAt(pool, lists[h], key, hash, chains[h]);
    }
  }

  lemma {:induction false} ClearedSame<K, D>(pool: seq<Entry<D>>, cap: nat, lists: seq<seq<nat>>, owner: seq<nat>,
                                             key: D -> K, hash: K -> nat, chains: seq<seq<D>>, i: nat)
    requires ClearedUpTo(pool, cap, lists, owner, key, hash, chains, i) && i < cap && |lists[i]| <= 1
    ensures ClearedUpTo(pool, cap, lists[i := []], owner, key, hash, chains, i + 1)
  {
    if lists[i] == [] {
      assert lists[i := []] == lists;
    } else {
      ForgetOnly(pool, cap, lists, owner, i);
    }
  }

  /** What a bucket's first entry tells about its chain. */
  lemma {:induction false} BucketHead<K, D>(pool: seq<Entry<D>>, cap: nat, lists: seq<seq<nat>>, owner: seq<nat>,
                                            key: D -> K, hash: K -> nat, c: seq<D>, i: nat)
    requires Shape(pool, cap, lists, owner, NIL) && i < cap && CarriesAt(pool, lists[i], key, hash, c)
    requires lists[i] == [] ==> pool[i] == Empty()
    ensures pool[i].data.Has? <==> lists[i] != []
    ensures lists[i] != [] ==> lists[i][0] == i && pool[i].data == Has(c[0]) && pool[i].next == After(lists[i], 0)
    ensures lists[i] == [] ==> pool[i].next == NIL
  {
    assert ListOk(pool, cap, owner, i, lists[i]);
    if lists[i] != [] {
      assert Member(pool, cap, owner, i, lists[i], 0);
    }
  }

  lemma {:induction false} AllCleared<K(!new), D(!new)>(pool: seq<Entry<D>>, cap: nat, lists: seq<seq<nat>>, owner: seq<nat>,
                                            key: D -> K, hash: K -> nat, chains: seq<seq<D>>)
    requires ClearedUpTo(pool, cap, lists, owner, key, hash, chains, cap)
    ensures Holding(WithoutBuckets(pool, cap), cap, lists, owner, key, hash, NoChains(cap), NIL)
    ensures Represents(NoChains<D>(cap), key, hash, map[])
    ensures AllFree(lists[cap], cap, |pool|)
  {
    var pool' := WithoutBuckets(pool, cap);
    assert forall p :: 0 <= p < |pool| ==> pool'[p] == if p < cap then Empty() else pool[p];
    Wiped(pool, cap, lists, owner, pool');
    var none := NoChains<D>(cap);
    assert forall h :: 0 <= h < cap ==> none[h] == [];
  }

  function WithoutBuckets<D>(pool: seq<Entry<D>>, cap: nat): seq<Entry<D>> {
    seq(|pool|, p requires 0 <= p < |pool| => if p < cap then Empty() else pool[p])
  }

  function NoChains<D>(cap: nat): seq<seq<D>> { seq(cap, h => []) }

  /** The finalizer got every element of m once more, and nothing else. */
  ghost predicate FinalizedEach<K, D(!new)>(before: seq<D>, after: seq<D>, key: D -> K, m: map<K, D>) {
    |before| <= |after| && after[..|before|] == before && EachOnce(after[|before|..], key, m)
  }

  lemma {:induction false} Regrouped<T>(a: seq<T>, b: seq<T>, c: seq<T>)
    ensures (a + b) + c == a + (b + c)
  {
  }

  lemma {:induction false} Appended<K, D(!new)>(s: seq<D>, t: seq<D>, key: D -> K, m: map<K, D>)
    requires EachOnce(t, key, m)
    ensures FinalizedEach(s, s + t, key, m)
  {
    assert (s + t)[..|s|] == s && (s + t)[|s|..] == t;
  }

  lemma {:induction false} AllFinalized<K(!new), D(!new)>(
    chains: seq<seq<D>>, key: D -> K, hash: K -> nat, m: map<K, D>, destroy: bool, before: seq<D>)
    requires Represents(chains, key, hash, m)
    ensures FinalizedEach(before, before + Orders(chains, |chains|, destroy), key, m)
  {
    OrdersOnce(chains, key, hash, m, destroy);
    Appended(before, Orders(chains, |chains|, destroy), key, m);
  }

  /** All allocated entries are on the free list. */
  predicate AllFree(free: seq<nat>, cap: nat, n: nat) { forall p :: cap < p < n ==> p in free }

  // ---------- The table ----------

  /** What is stored for an element has the element's key. */
  ghost predicate KeepsKeys<K, D(!new)>(key: D -> K, add: D -> D) { forall d {:trigger add(d)} :: key(add(d)) == key(d) }

  class HashTable<K(==,!new), D(!new)> {
    const capacity: nat
    const key: D -> K       // the string an element is known by
    const hash: K -> nat
    const add: D -> D       // what is stored for an inserted element
    var pool: seq<Entry<D>>
    var finalized: seq<D>   // the elements handed to the finalizer so far
    ghost var lists: seq<seq<nat>>
    ghost var owner: seq<nat>
    ghost var chains: seq<seq<D>>
    ghost var contents: map<K, D>

    ghost predicate Valid()
      reads this`pool, this`lists, this`owner, this`chains, this`contents
    {
      && KeepsKeys(key, add)
      && Shape(pool, capacity, lists, owner, NIL) && Blank(pool, capacity, lists, 0)
      && Carries(pool, capacity, lists, key, hash, chains)
      && Represents(chains, key, hash, contents)
    }

    constructor (capacity: nat, key: D -> K, hash: K -> nat, add: D -> D)
      requires capacity > 0 && KeepsKeys(key, add)
      ensures Valid() && contents == map[] && finalized == []
      ensures this.capacity == capacity && this.key == key && this.hash == hash && this.add == add
    {
      this.capacity, this.key, this.hash, this.add := capacity, key, hash, add;
      pool := seq(capacity + 1, i => Empty());
      finalized := [];
      lists := seq(capacity + 1, i => []);
      owner := seq(capacity + 1, i => i);
      chains := seq(capacity, i => []);
      contents := map[];
    }

    /** Where key k belongs: the search stands at place j of its bucket's chain. */
    ghost predicate StandsAt(k: K, pre: int, ref: int, j: nat)
      reads this
      requires Valid()
    {
      var i := hash(k) % capacity;
      && j <= |lists[i]| && i < |pool|
      && pre == (if j == 0 then NIL else lists[i][j - 1])
      && ref == (if lists[i] == [] then i else if j < |lists[i]| then lists[i][j] else NIL)
      && (forall h :: 0 <= h < j ==> key(chains[i][h]) != k)
    }

    /** Walk down the chain of k's bucket. */
    method Find(k: K) returns (pre: int, ref: int, ghost j: nat)
      requires Valid()
      ensures StandsAt(k, pre, ref, j)
      ensures var i := hash(k) % capacity; j < |lists[i]| ==> key(chains[i][j]) == k
    {
      var pos := hash(k) % capacity;
      pre, ref, j := NIL, pos, 0;
      assert ListOk(pool, capacity, owner, pos, lists[pos]) && CarriesAt(pool, lists[pos], key, hash, chains[pos]);
      while ref != NIL && pool[ref].data.Has?
        invariant StandsAt(k, pre, ref, j)
        decreases |lists[pos]| - j
      {
        assert Member(pool, capacity, owner, pos, lists[pos], j);
        if pool[ref].hash == hash(k) && key(pool[ref].data.d) == k {
          break;
        }
        pre, ref, j := ref, pool[ref].next, j + 1;
      }
    }

    /** Whether the key is in the table, and with what element. */
    method Lookup(k: K) returns (found: Data<D>)
      requires Valid()
      ensures found == if k in contents then Has(contents[k]) else NoData
    {
      var pre, ref, j := Find(k);
      ghost var i := hash(k) % capacity;
      assert CarriesAt(pool, lists[i], key, hash, chains[i]);
      if ref != NIL && pool[ref].data.Has? {
        Present(chains, key, hash, contents, k, j);
        found := pool[ref].data;
      } else {
        Absent(chains, key, hash, contents, k);
        found := NoData;
      }
    }

    /** An entry from the free list, or a new one. */
    method AllocEntry() returns (p: nat)
      requires Shape(pool, capacity, lists, owner, NIL)
      modifies this`pool, this`lists, this`owner
      ensures Shape(pool, capacity, lists, owner, p) && pool[p] == Empty()
      ensures forall h :: 0 <= h < capacity ==> lists[h] == old(lists)[h]
      ensures BucketsKept(old(pool), old(owner), pool, owner, capacity)
    {
      var free := pool[capacity].next;
      if free != NIL {
        TakeFree(pool, capacity, lists, owner);
        p := free;
        pool := pool[capacity := pool[capacity].(next := pool[p].next)];
        pool := pool[p := Empty()];
        assert ListOk(old(pool), capacity, old(owner), capacity, old(lists)[capacity]);
        assert Member(old(pool), capacity, old(owner), capacity, old(lists)[capacity], 0);
        lists, owner := lists[capacity := lists[capacity][1..]], owner[p := capacity + 1];
      } else {
        NewEntry(pool, capacity, lists, owner);
        p := |pool|;
        pool, owner := pool + [Empty()], owner + [capacity + 1];
      }
    }

    /** Give an entry back. */
    method FreeEntry(p: nat)
      requires Shape(pool, capacity, lists, owner, p)
      modifies this`pool, this`lists, this`owner
      ensures Shape(pool, capacity, lists, owner, NIL)
      ensures forall h :: 0 <= h < capacity ==> lists[h] == old(lists)[h]
      ensures BucketsKept(old(pool), old(owner), pool, owner, capacity) && |pool| == |old(pool)|
    {
      PutFree(pool, capacity, lists, owner, p);
      pool := pool[p := pool[p].(next := pool[capacity].next)];
      pool := pool[capacity := pool[capacity].(next := p)];
      lists, owner := lists[capacity := [p] + lists[capacity]], owner[p := capacity];
    }

    /** Make a place at the end of bucket i's chain. */
    method Extend(pre: nat, ghost i: nat) returns (p: nat)
      requires Shape(pool, capacity, lists, owner, NIL) && i < capacity && lists[i] != []
      requires pre == lists[i][|lists[i]| - 1]
      modifies this`pool, this`lists, this`owner
      ensures Shape(pool, capacity, lists, owner, NIL) && p < |pool| && pool[p] == Empty()
      ensures forall h :: 0 <= h < capacity ==> lists[h] == if h == i then old(lists)[i] + [p] else old(lists)[h]
      ensures |pool| >= |old(pool)| && p >= capacity
      ensures forall q :: 0 <= q < |old(pool)| && q != p && owner[q] < capacity ==>
        pool[q].data == old(pool)[q].data && pool[q].hash == old(pool)[q].hash
      ensures forall h :: 0 <= h < capacity && h != i ==> pool[h] == old(pool)[h]
    {
      assert ListOk(pool, capacity, owner, i, lists[i]) && Member(pool, capacity, owner, i, lists[i], |lists[i]| - 1);
      p := AllocEntry();
      Append(pool, capacity, lists, owner, i, p);
      pool := pool[pre := pool[pre].(next := p)];
      lists, owner := lists[i := lists[i] + [p]], owner[p := i];
    }

    /** Write an element into the blank entry at the end of its chain. */
    method Fill(p: nat, val: D, ghost pool0: seq<Entry<D>>, ghost lists0: seq<seq<nat>>)
      requires KeepsKeys(key, add)
      requires Carries(pool0, capacity, lists0, key, hash, chains) && |pool0| > capacity && Blank(pool0, capacity, lists0, 0)
      requires Represents(chains, key, hash, contents) && key(val) !in contents
      requires Shape(pool, capacity, lists, owner, NIL) && Longer(lists0, lists, capacity, hash(key(val)) % capacity, p)
      requires Undisturbed(pool0, pool, owner, capacity, p) && p < |pool|
      requires forall h :: 0 <= h < capacity && h != hash(key(val)) % capacity ==> lists0[h] == [] ==> pool[h] == pool0[h]
      modifies this`pool, this`chains, this`contents
      ensures Valid() && contents == old(contents)[key(val) := add(val)]
    {
      ghost var i, d, shaped := hash(key(val)) % capacity, add(val), pool;
      pool := pool[p := pool[p].(hash := hash(key(val)))];
      pool := pool[p := pool[p].(data := Has(add(val)))];
      Filled(pool0, capacity, lists0, key, hash, chains, i, p, d, shaped, lists, owner, pool);
      Added(chains, key, hash, contents, d);
      chains := chains[i := chains[i] + [d]];
      contents := contents[key(val) := d];
    }

    /** Insert an element unless its key is there; give the element that is. */
    method Insert(val: D) returns (stored: D)
      requires Valid()
      modifies this`pool, this`lists, this`owner, this`chains, this`contents
      ensures Valid()
      ensures contents == if key(val) in old(contents) then old(contents) else old(contents)[key(val) := add(val)]
      ensures stored == contents[key(val)]
    {
      var k := key(val);
      var pre, ref, j := Find(k);
      ghost var i, pool0, lists0 := hash(k) % capacity, pool, lists;
      assert CarriesAt(pool, lists[i], key, hash, chains[i]) && ListOk(pool, capacity, owner, i, lists[i]);
      if ref != NIL && pool[ref].data.Has? {
        Present(chains, key, hash, contents, k, j);
        return pool[ref].data.d;
      }
      Absent(chains, key, hash, contents, k);
      if ref == NIL {
        ref := Extend(pre, i);
      } else {
        StartChain(pool, capacity, lists, owner, i);
        lists := lists[i := [i]];
      }
      Fill(ref, val, pool0, lists0);
      stored := add(val);
    }

    /** Give back an entry that is on no list. */
    method Release(p: nat, ghost chains': seq<seq<D>>)
      requires Holding(pool, capacity, lists, owner, key, hash, chains', p) && p < |pool|
      modifies this`pool, this`lists, this`owner
      ensures Holding(pool, capacity, lists, owner, key, hash, chains', NIL)
    {
      ghost var pool1, lists1, owner1 := pool, lists, owner;
      FreeEntry(p);
      CarriesKept(pool1, capacity, lists1, key, hash, chains', pool, lists, owner1);
    }

    /** Unlink the entry at place j of bucket i's chain, or move the next one into it. */
    method Drop(pre: int, ref: nat, ghost i: nat, ghost j: nat)
      requires Holding(pool, capacity, lists, owner, key, hash, chains, NIL) && i < capacity && j < |lists[i]|
      requires pre == (if j == 0 then NIL else lists[i][j - 1]) && ref == lists[i][j]
      modifies this`pool, this`lists, this`owner
      ensures Holding(pool, capacity, lists, owner, key, hash, chains[i := Without(chains[i], j)], NIL)
    {
      assert ListOk(pool, capacity, owner, i, lists[i]) && Member(pool, capacity, owner, i, lists[i], j);
      if pre == NIL {
        var next := pool[ref].next;
        if next == NIL {
          CutOnly(pool, capacity, lists, owner, key, hash, chains, i);
          pool := pool[ref := Empty()];
          lists := lists[i := []];
        } else {
          CutFirst(pool, capacity, lists, owner, key, hash, chains, i);
          pool := pool[ref := pool[next]];
          lists, owner := lists[i := Without(lists[i], 1)], owner[next := capacity + 1];
          Release(next, chains[i := Without(chains[i], 0)]);
        }
      } else {
        CutLater(pool, capacity, lists, owner, key, hash, chains, i, j);
        pool := pool[pre := pool[pre].(next := pool[ref].next)];
        lists, owner := lists[i := Without(lists[i], j)], owner[ref := capacity + 1];
        Release(ref, chains[i := Without(chains[i], j)]);
      }
    }

    /** Remove a key, handing its element to the finalizer. */
    method Remove(k: K)
      requires Valid()
      modifies this`pool, this`lists, this`owner, this`chains, this`contents, this`finalized
      ensures Valid() && contents == old(contents) - {k}
      ensures finalized == old(finalized) + if k in old(contents) then [old(contents)[k]] else []
    {
      var pre, ref, j := Find(k);
      ghost var i := hash(k) % capacity;
      assert CarriesAt(pool, lists[i], key, hash, chains[i]);
      if ref == NIL || pool[ref].data.NoData? {
        Absent(chains, key, hash, contents, k);
        assert contents - {k} == contents;
        return;
      }
      Present(chains, key, hash, contents, k, j);
      Removed(chains, key, hash, contents, i, j);
      finalized := finalized + [pool[ref].data.d];
      Drop(pre, ref, i, j);
      chains, contents := chains[i := Without(chains[i], j)], contents - {k};
    }

    /** Finalize the elements of a chain from an entry on, last first; give the last entry. */
    method ChainClear(ref: nat, ghost i: nat, ghost j: nat, ghost c: seq<D>) returns (last: nat)
      requires Shape(pool, capacity, lists, owner, NIL) && i < capacity && j < |lists[i]| && ref == lists[i][j]
      requires CarriesAt(pool, lists[i], key, hash, c)
      modifies this`finalized
      ensures last == lists[i][|lists[i]| - 1] && finalized == old(finalized) + Backward(c, j)
      decreases |lists[i]| - j
    {
      assert ListOk(pool, capacity, owner, i, lists[i]) && Member(pool, capacity, owner, i, lists[i], j);
      last := ref;
      if pool[ref].next != NIL {
        last := ChainClear(pool[ref].next, i, j + 1, c);
      }
      finalized := finalized + [pool[ref].data.d];
    }

    /** Finalize all of a chain but its first element, and move those entries to the free list. */
    method ClearRest(i: nat)
      requires i < capacity && ClearedUpTo(pool, capacity, lists, owner, key, hash, chains, i) && |lists[i]| > 1
      modifies this`pool, this`lists, this`owner, this`finalized
      ensures ClearedUpTo(pool, capacity, lists, owner, key, hash, chains, i + 1) && |pool| == |old(pool)|
      ensures |chains[i]| > 1 && finalized == old(finalized) + Backward(chains[i], 1)
    {
      ghost var after := ClearedMore(pool, capacity, lists, owner, key, hash, chains, i);
      var last := ChainClear(pool[i].next, i, 1, chains[i]);
      owner := after;
      pool := pool[last := pool[last].(next := pool[capacity].next)];
      pool := pool[capacity := pool[capacity].(next := pool[i].next)];
      lists := lists[i := []][capacity := lists[i][1..] + lists[capacity]];
    }

    /** Clear bucket i. */
    method ClearBucket(i: nat)
      requires i < capacity && ClearedUpTo(pool, capacity, lists, owner, key, hash, chains, i)
      modifies this`pool, this`lists, this`owner, this`finalized
      ensures ClearedUpTo(pool, capacity, lists, owner, key, hash, chains, i + 1) && |pool| == |old(pool)|
      ensures finalized == old(finalized) + Order(chains[i], false)
    {
      BucketHead(pool, capacity, lists, owner, key, hash, chains[i], i);
      if pool[i].data.NoData? {
        ClearedSame(pool, capacity, lists, owner, key, hash, chains, i);
        assert lists[i := []] == lists;
        return;
      }
      finalized := finalized + [pool[i].data.d];
      if pool[i].next == NIL {
        ClearedSame(pool, capacity, lists, owner, key, hash, chains, i);
        lists := lists[i := []];
      } else {
        ClearRest(i);
      }
    }

    method NextClear(i: nat, ghost before: seq<D>)
      requires i < capacity && ClearedUpTo(pool, capacity, lists, owner, key, hash, chains, i)
      requires finalized == before + Orders(chains, i, false)
      modifies this`pool, this`lists, this`owner, this`finalized
      ensures ClearedUpTo(pool, capacity, lists, owner, key, hash, chains, i + 1) && |pool| == |old(pool)|
      ensures finalized == before + Orders(chains, i + 1, false)
    {
      ClearBucket(i);
      Regrouped(before, Orders(chains, i, false), Order(chains[i], false));
    }

    /** Clear all buckets. */
    method ClearBuckets()
      requires Holding(pool, capacity, lists, owner, key, hash, chains, NIL)
      modifies this`pool, this`lists, this`owner, this`finalized
      ensures ClearedUpTo(pool, capacity, lists, owner, key, hash, chains, capacity) && |pool| == |old(pool)|
      ensures finalized == old(finalized) + Orders(chains, capacity, false)
    {
      var i := 0;
      while i < capacity
        invariant 0 <= i <= capacity && ClearedUpTo(pool, capacity, lists, owner, key, hash, chains, i)
        invariant |pool| == |old(pool)|
        invariant finalized == old(finalized) + Orders(chains, i, false)
      {
        NextClear(i, old(finalized));
        i := i + 1;
      }
    }

    /** Empty the table, keeping every allocated entry for later. */
    method Clear()
      requires Valid()
      modifies this
      ensures Valid() && contents == map[] && |pool| == |old(pool)|
      ensures AllFree(lists[capacity], capacity, |pool|)
      ensures FinalizedEach(old(finalized), finalized, key, old(contents))
    {
      AllFinalized(chains, key, hash, contents, false, finalized);
      ClearBuckets();
      AllCleared(pool, capacity, lists, owner, key, hash, chains);
      pool := WithoutBuckets(pool, capacity);
      chains, contents := NoChains(capacity), map[];
    }

    /** Release the entries behind ref, the last one first, and finalize ref's element. */
    method ChainFree(ref: nat, finalize: bool, ghost i: nat, ghost j: nat, ghost c: seq<D>) returns (freed: seq<nat>)
      requires Shape(pool, capacity, lists, owner, NIL) && i <= capacity && j <= |lists[i]| && ref < |pool|
      requires pool[ref].next == if j < |lists[i]| then lists[i][j] else NIL
      requires finalize ==> j > 0 && ref == lists[i][j - 1] && CarriesAt(pool, lists[i], key, hash, c)
      modifies this`finalized
      ensures freed == Backward(lists[i], j)
      ensures finalized == if finalize then old(finalized) + Backward(c, j - 1) else old(finalized)
      decreases |lists[i]| - j
    {
      freed := [];
      if pool[ref].next != NIL {
        var next := pool[ref].next;
        assert ListOk(pool, capacity, owner, i, lists[i]) && Member(pool, capacity, owner, i, lists[i], j);
        freed := ChainFree(next, finalize, i, j + 1, c);
        freed := freed + [next];
      }
      if finalize {
        finalized := finalized + [pool[ref].data.d];
      }
    }

    /** Release bucket i's chain. */
    method DestroyBucket(i: nat, freed0: seq<nat>, ghost before: seq<D>) returns (freed: seq<nat>)
      requires Holding(pool, capacity, lists, owner, key, hash, chains, NIL) && i < capacity
      requires freed0 == Releases(lists, capacity, i) && finalized == before + Orders(chains, i, true)
      modifies this`finalized
      ensures freed == Releases(lists, capacity, i + 1) && finalized == before + Orders(chains, i + 1, true)
    {
      freed := freed0;
      BucketHead(pool, capacity, lists, owner, key, hash, chains[i], i);
      Regrouped(before, Orders(chains, i, true), Order(chains[i], true));
      if pool[i].data.Has? {
        var more := ChainFree(i, true, i, 1, chains[i]);
        freed := freed + more;
      }
    }

    /** Release all chains, then the free list. */
    method DestroyLists() returns (freed: seq<nat>)
      requires Holding(pool, capacity, lists, owner, key, hash, chains, NIL)
      modifies this`finalized
      ensures freed == Releases(lists, capacity, capacity + 1)
      ensures finalized == old(finalized) + Orders(chains, capacity, true)
    {
      freed := [];
      ghost var before := finalized;
      var i := 0;
      while i < capacity
        invariant 0 <= i <= capacity && freed == Releases(lists, capacity, i)
        invariant finalized == before + Orders(chains, i, true)
      {
        freed := DestroyBucket(i, freed, before);
        i := i + 1;
      }
      var more := ChainFree(capacity, false, capacity, 0, []);
      freed := freed + more;
    }

    /** Give all memory back: every allocated entry once, after its element was finalized. */
    method Destroy() returns (freed: seq<nat>)
      requires Valid()
      modifies this`finalized
      ensures ReleasesEach(freed, capacity, |pool|)
      ensures FinalizedEach(old(finalized), finalized, key, contents)
    {
      AllReleased(pool, capacity, lists, owner);
      AllFinalized(chains, key, hash, contents, true, finalized);
      freed := DestroyLists();
    }
  }
}
