/**
  The memory of a chained hash table: a pool of entries whose pointers are
  positions in it.  Positions below the capacity are the first entries of the
  buckets, the one at the capacity heads the list of free entries, and the others
  were allocated one by one and belong to a bucket's chain or to the free list.
*/
module HashChains {
  datatype Data<+D> = NoData | Has(d: D)

  /** next is the position of the next entry, or NIL. */
  datatype Entry<+D> = Entry(data: Data<D>, hash: nat, next: int)

  const NIL: int := -1

  function Empty<D>(): Entry<D> { Entry(NoData, 0, NIL) }

  // ---------- Which entries are on which list ----------

  /** Where the entry at place j of a list points to. */
  function After(list: seq<nat>, j: nat): int { if j + 1 < |list| then list[j + 1] else NIL }

  function First(list: seq<nat>): int { if list == [] then NIL else list[0] }

  /** List i is a chain of entries of its own, starting in the bucket's first entry;
      list cap is the free list. */
  ghost predicate ListOk<D>(pool: seq<Entry<D>>, cap: nat, owner: seq<nat>, i: nat, list: seq<nat>)
    requires |owner| == |pool|
  {
    && (forall j :: 0 <= j < |list| ==> Member(pool, cap, owner, i, list, j))
    && (forall j, k :: 0 <= j < k < |list| ==> list[j] != list[k])
    && (i < cap && list != [] ==> list[0] == i)
  }

  ghost predicate Member<D>(pool: seq<Entry<D>>, cap: nat, owner: seq<nat>, i: nat, list: seq<nat>, j: nat)
    requires |owner| == |pool| && j < |list|
  {
    && list[j] < |pool| && owner[list[j]] == i && pool[list[j]].next == After(list, j)
    && (list[j] <= cap ==> j == 0 && i < cap && list[j] == i)
  }

  /** Every allocated entry is on exactly one list, once; only the loose one, if any,
      is on none. */
  ghost predicate Shape<D>(pool: seq<Entry<D>>, cap: nat, lists: seq<seq<nat>>, owner: seq<nat>, loose: int) {
    && 0 < cap < |pool| == |owner| && |lists| == cap + 1
    && (forall i :: 0 <= i <= cap ==> ListOk(pool, cap, owner, i, lists[i]))
    && (forall p :: cap < p < |pool| && p != loose ==> owner[p] <= cap && p in lists[owner[p]])
    && pool[cap].next == First(lists[cap])
    && (forall i :: 0 <= i <= cap ==> owner[i] == i)
    && (loose != NIL ==> cap < loose < |pool| && owner[loose] > cap)
  }

  /** Buckets from n on without a chain are blank. */
  ghost predicate Blank<D>(pool: seq<Entry<D>>, cap: nat, lists: seq<seq<nat>>, n: nat)
    requires |pool| > cap && |lists| == cap + 1
  {
    forall i :: n <= i < cap && lists[i] == [] ==> pool[i] == Empty()
  }

  /** What the lists say about entries on other lists, or on none. */
  lemma {:induction false} Elsewhere<D>(
    pool: seq<Entry<D>>, cap: nat, owner: seq<nat>, i: nat, list: seq<nat>, pool': seq<Entry<D>>, owner': seq<nat>)
    requires |owner| == |pool| <= |pool'| == |owner'| && ListOk(pool, cap, owner, i, list)
    requires forall p :: 0 <= p < |pool| && owner[p] == i && (p < cap || p > cap) ==>
      pool'[p].next == pool[p].next && owner'[p] == i
    ensures ListOk(pool', cap, owner', i, list)
  {
    forall j | 0 <= j < |list|
      ensures Member(pool', cap, owner', i, list, j)
    {
      assert Member(pool, cap, owner, i, list, j);
    }
  }

  lemma {:induction false} SameLinks<D>(
    pool: seq<Entry<D>>, cap: nat, lists: seq<seq<nat>>, owner: seq<nat>, loose: int, pool': seq<Entry<D>>)
    requires Shape(pool, cap, lists, owner, loose) && |pool'| == |pool|
    requires forall p :: 0 <= p < |pool| ==> pool'[p].next == pool[p].next
    ensures Shape(pool', cap, lists, owner, loose)
  {
    forall i | 0 <= i <= cap
      ensures ListOk(pool', cap, owner, i, lists[i])
    {
      assert ListOk(pool, cap, owner, i, lists[i]);
      Elsewhere(pool, cap, owner, i, lists[i], pool', owner);
    }
  }

  /** What buckets own is as it was. */
  predicate BucketsKept<D(==)>(pool: seq<Entry<D>>, owner: seq<nat>, pool': seq<Entry<D>>, owner': seq<nat>, cap: nat) {
    && |pool| == |owner| <= |pool'| == |owner'|
    && (forall q :: 0 <= q < |pool'| && owner'[q] < cap ==> q < |pool| && owner[q] == owner'[q])
    && (forall q :: 0 <= q < |pool| && owner[q] < cap ==> owner'[q] == owner[q] && pool'[q] == pool[q])
  }

  // ---------- Changing the lists ----------

  /** Take the first free entry off the free list. */
  lemma {:induction false} TakeFree<D>(pool: seq<Entry<D>>, cap: nat, lists: seq<seq<nat>>, owner: seq<nat>)
    requires Shape(pool, cap, lists, owner, NIL) && lists[cap] != []
    ensures var p := lists[cap][0];
      && cap < p < |pool|
      && Shape(pool[cap := pool[cap].(next := pool[p].next)][p := Empty()], cap, lists[cap := lists[cap][1..]], owner[p := cap + 1], p)
  {
    var free := lists[cap];
    var p := free[0];
    assert ListOk(pool, cap, owner, cap, free) && Member(pool, cap, owner, cap, free, 0);
    var pool' := pool[cap := pool[cap].(next := pool[p].next)][p := Empty()];
    var owner' := owner[p := cap + 1];
    var rest := free[1..];
    forall j | 0 <= j < |rest|
      ensures Member(pool', cap, owner', cap, rest, j)
    {
      assert Member(pool, cap, owner, cap, free, j + 1);
    }
    forall i | 0 <= i < cap
      ensures ListOk(pool', cap, owner', i, lists[i])
    {
      assert ListOk(pool, cap, owner, i, lists[i]);
      Elsewhere(pool, cap, owner, i, lists[i], pool', owner');
    }
    forall q | cap < q < |pool| && q != p
      ensures owner'[q] <= cap && q in lists[cap := rest][owner'[q]]
    {
      assert q in lists[owner[q]];
      if owner[q] == cap {
        var k :| 0 <= k < |free| && free[k] == q;
        assert rest[k - 1] == q;
      }
    }
  }

  lemma {:induction false} NewEntry<D>(pool: seq<Entry<D>>, cap: nat, lists: seq<seq<nat>>, owner: seq<nat>)
    requires Shape(pool, cap, lists, owner, NIL)
    ensures Shape(pool + [Empty()], cap, lists, owner + [cap + 1], |pool|)
  {
    forall i | 0 <= i <= cap
      ensures ListOk(pool + [Empty()], cap, owner + [cap + 1], i, lists[i])
    {
      assert ListOk(pool, cap, owner, i, lists[i]);
      Elsewhere(pool, cap, owner, i, lists[i], pool + [Empty()], owner + [cap + 1]);
    }
  }

  /** Put a loose entry at the front of the free list. */
  lemma {:induction false} PutFree<D>(pool: seq<Entry<D>>, cap: nat, lists: seq<seq<nat>>, owner: seq<nat>, p: nat)
    requires Shape(pool, cap, lists, owner, p)
    ensures Shape(pool[p := pool[p].(next := pool[cap].next)][cap := pool[cap].(next := p)], cap,
                  lists[cap := [p] + lists[cap]], owner[p := cap], NIL)
  {
    var free := lists[cap];
    var pool' := pool[p := pool[p].(next := pool[cap].next)][cap := pool[cap].(next := p)];
    var owner', list := owner[p := cap], [p] + free;
    assert ListOk(pool, cap, owner, cap, free);
    forall j | 0 <= j < |list|
      ensures Member(pool', cap, owner', cap, list, j)
    {
      if j > 0 {
        assert Member(pool, cap, owner, cap, free, j - 1);
      }
    }
    forall j, k | 0 <= j < k < |list|
      ensures list[j] != list[k]
    {
      assert Member(pool, cap, owner, cap, free, k - 1);
    }
    forall i | 0 <= i < cap
      ensures ListOk(pool', cap, owner', i, lists[i])
    {
      assert ListOk(pool, cap, owner, i, lists[i]);
      Elsewhere(pool, cap, owner, i, lists[i], pool', owner');
    }
    forall q | cap < q < |pool|
      ensures owner'[q] <= cap && q in lists[cap := list][owner'[q]]
    {
      if q == p {
        assert list[0] == p;
      } else {
        assert q in lists[owner[q]];
        if owner[q] == cap {
          var k :| 0 <= k < |free| && free[k] == q;
          assert list[k + 1] == q;
        }
      }
    }
  }

  /** Link a loose blank entry behind the last one of a chain. */
  lemma {:induction false} Append<D>(pool: seq<Entry<D>>, cap: nat, lists: seq<seq<nat>>, owner: seq<nat>, i: nat, p: nat)
    requires Shape(pool, cap, lists, owner, p) && i < cap && lists[i] != [] && pool[p] == Empty()
    ensures var last := lists[i][|lists[i]| - 1];
      && last < |pool| && last != p
      && Shape(pool[last := pool[last].(next := p)], cap, lists[i := lists[i] + [p]], owner[p := i], NIL)
  {
    var old', n := lists[i], |lists[i]|;
    var last := old'[n - 1];
    assert ListOk(pool, cap, owner, i, old') && Member(pool, cap, owner, i, old', n - 1);
    var pool', owner', list := pool[last := pool[last].(next := p)], owner[p := i], old' + [p];
    forall j | 0 <= j < |list|
      ensures Member(pool', cap, owner', i, list, j)
    {
      if j < n {
        assert Member(pool, cap, owner, i, old', j);
      }
    }
    forall j, k | 0 <= j < k < |list|
      ensures list[j] != list[k]
    {
      assert Member(pool, cap, owner, i, old', j);
    }
    forall h | 0 <= h <= cap && h != i
      ensures ListOk(pool', cap, owner', h, lists[h])
    {
      assert ListOk(pool, cap, owner, h, lists[h]);
      Elsewhere(pool, cap, owner, h, lists[h], pool', owner');
    }
    forall q | cap < q < |pool|
      ensures owner'[q] <= cap && q in lists[i := list][owner'[q]]
    {
      if q == p {
        assert list[n] == p;
      } else {
        assert q in lists[owner[q]];
      }
    }
  }

  /** A bucket without a chain gets one of its first entry alone. */
  lemma {:induction false} StartChain<D>(pool: seq<Entry<D>>, cap: nat, lists: seq<seq<nat>>, owner: seq<nat>, i: nat)
    requires Shape(pool, cap, lists, owner, NIL) && i < cap && lists[i] == [] && pool[i] == Empty()
    ensures Shape(pool, cap, lists[i := [i]], owner, NIL)
  {
    assert Member(pool, cap, owner, i, [i], 0);
    forall h | 0 <= h <= cap && h != i
      ensures ListOk(pool, cap, owner, h, lists[h])
    {
      assert ListOk(pool, cap, owner, h, lists[h]);
    }
  }

  function Without<T>(s: seq<T>, j: nat): (r: seq<T>)
    requires j < |s|
    ensures |r| == |s| - 1
    ensures forall k :: 0 <= k < |r| ==> r[k] == if k < j then s[k] else s[k + 1]
  {
    s[..j] + s[j + 1..]
  }

  /** Unlink an entry that is not its bucket's first. */
  lemma {:induction false} Unlink<D>(pool: seq<Entry<D>>, cap: nat, lists: seq<seq<nat>>, owner: seq<nat>, i: nat, j: nat)
    requires Shape(pool, cap, lists, owner, NIL) && i < cap && 0 < j < |lists[i]|
    ensures var pre, ref := lists[i][j - 1], lists[i][j];
      && pre < |pool| && cap < ref < |pool| && pre != ref
      && Shape(pool[pre := pool[pre].(next := pool[ref].next)], cap, lists[i := Without(lists[i], j)], owner[ref := cap + 1], ref)
  {
    var c := lists[i];
    var pre, ref := c[j - 1], c[j];
    assert ListOk(pool, cap, owner, i, c) && Member(pool, cap, owner, i, c, j) && Member(pool, cap, owner, i, c, j - 1);
    var pool', owner', list := pool[pre := pool[pre].(next := pool[ref].next)], owner[ref := cap + 1], Without(c, j);
    forall k | 0 <= k < |list|
      ensures Member(pool', cap, owner', i, list, k)
    {
      assert Member(pool, cap, owner, i, c, if k < j then k else k + 1);
      assert c[if k < j then k else k + 1] != ref;
      assert k != j - 1 ==> list[k] != pre;
    }
    Unlinked(pool, cap, lists, owner, i, j, pool', owner', list);
  }

  /** The rest of the pool, when entry j of chain i goes. */
  lemma {:induction false} Unlinked<D>(
    pool: seq<Entry<D>>, cap: nat, lists: seq<seq<nat>>, owner: seq<nat>, i: nat, j: nat,
    pool': seq<Entry<D>>, owner': seq<nat>, list: seq<nat>)
    requires Shape(pool, cap, lists, owner, NIL) && i < cap && 0 < j < |lists[i]| && |pool'| == |pool|
    requires lists[i][j] < |pool| && owner' == owner[lists[i][j] := cap + 1] && list == Without(lists[i], j)
    requires forall p :: 0 <= p < |pool| && owner[p] != i ==> pool'[p].next == pool[p].next
    requires pool'[cap].next == pool[cap].next
    requires forall k :: 0 <= k < |list| ==> Member(pool', cap, owner', i, list, k)
    ensures Shape(pool', cap, lists[i := list], owner', lists[i][j])
  {
    var c, ref := lists[i], lists[i][j];
    assert ListOk(pool, cap, owner, i, c) && Member(pool, cap, owner, i, c, j);
    forall a, b | 0 <= a < b < |list|
      ensures list[a] != list[b]
    {
      assert c[if a < j then a else a + 1] != c[if b < j then b else b + 1];
    }
    forall h | 0 <= h <= cap && h != i
      ensures ListOk(pool', cap, owner', h, lists[h])
    {
      assert ListOk(pool, cap, owner, h, lists[h]);
      Elsewhere(pool, cap, owner, h, lists[h], pool', owner');
    }
    forall q | cap < q < |pool| && q != ref
      ensures owner'[q] <= cap && q in lists[i := list][owner'[q]]
    {
      assert q in lists[owner[q]];
      if owner[q] == i {
        var k :| 0 <= k < |c| && c[k] == q;
        assert list[if k < j then k else k - 1] == q;
      }
    }
  }

  /** Drop a bucket's only entry. */
  lemma {:induction false} DropOnly<D>(pool: seq<Entry<D>>, cap: nat, lists: seq<seq<nat>>, owner: seq<nat>, i: nat)
    requires Shape(pool, cap, lists, owner, NIL) && i < cap && |lists[i]| == 1
    ensures Shape(pool[i := Empty()], cap, lists[i := []], owner, NIL)
  {
    var c := lists[i];
    assert ListOk(pool, cap, owner, i, c) && Member(pool, cap, owner, i, c, 0);
    forall h | 0 <= h <= cap && h != i
      ensures ListOk(pool[i := Empty()], cap, owner, h, lists[h])
    {
      assert ListOk(pool, cap, owner, h, lists[h]);
      Elsewhere(pool, cap, owner, h, lists[h], pool[i := Empty()], owner);
    }
    forall q | cap < q < |pool|
      ensures owner[q] <= cap && q in lists[i := []][owner[q]]
    {
      assert q in lists[owner[q]] && q !in c;
    }
  }

  /** Forget a chain of one entry, leaving the entry as it is. */
  lemma {:induction false} ForgetOnly<D>(pool: seq<Entry<D>>, cap: nat, lists: seq<seq<nat>>, owner: seq<nat>, i: nat)
    requires Shape(pool, cap, lists, owner, NIL) && i < cap && |lists[i]| == 1
    ensures Shape(pool, cap, lists[i := []], owner, NIL)
  {
    var c := lists[i];
    assert ListOk(pool, cap, owner, i, c);
    forall q | cap < q < |pool|
      ensures owner[q] <= cap && q in lists[i := []][owner[q]]
    {
      assert q in lists[owner[q]] && q !in c;
    }
    forall h | 0 <= h <= cap && h != i
      ensures ListOk(pool, cap, owner, h, lists[h])
    {
    }
  }

  /** With no chains, the buckets' first entries may be wiped. */
  lemma {:induction false} Wiped<D>(pool: seq<Entry<D>>, cap: nat, lists: seq<seq<nat>>, owner: seq<nat>, pool': seq<Entry<D>>)
    requires Shape(pool, cap, lists, owner, NIL) && forall i :: 0 <= i < cap ==> lists[i] == []
    requires |pool'| == |pool| && forall p :: cap <= p < |pool| ==> pool'[p] == pool[p]
    ensures Shape(pool', cap, lists, owner, NIL)
    ensures forall p :: cap < p < |pool| ==> p in lists[cap]
  {
    assert ListOk(pool, cap, owner, cap, lists[cap]);
    forall j | 0 <= j < |lists[cap]|
      ensures Member(pool', cap, owner, cap, lists[cap], j)
    {
      assert Member(pool, cap, owner, cap, lists[cap], j);
    }
    assert ListOk(pool', cap, owner, cap, lists[cap]);
    forall i | 0 <= i < cap
      ensures ListOk(pool', cap, owner, i, lists[i])
    {
    }
    forall p | cap < p < |pool|
      ensures p in lists[cap]
    {
      assert p in lists[owner[p]];
    }
  }

  /** Move the second entry of a chain into the bucket's first. */
  lemma {:induction false} ReplaceFirst<D>(pool: seq<Entry<D>>, cap: nat, lists: seq<seq<nat>>, owner: seq<nat>, i: nat)
    requires Shape(pool, cap, lists, owner, NIL) && i < cap && |lists[i]| > 1
    ensures var ref := lists[i][1];
      && lists[i][0] == i && cap < ref < |pool|
      && Shape(pool[i := pool[ref]], cap, lists[i := Without(lists[i], 1)], owner[ref := cap + 1], ref)
  {
    var c := lists[i];
    var ref := c[1];
    assert ListOk(pool, cap, owner, i, c) && Member(pool, cap, owner, i, c, 0) && Member(pool, cap, owner, i, c, 1);
    var pool', owner', list := pool[i := pool[ref]], owner[ref := cap + 1], Without(c, 1);
    forall k | 0 <= k < |list|
      ensures Member(pool', cap, owner', i, list, k)
    {
      assert Member(pool, cap, owner, i, c, if k < 1 then k else k + 1);
      assert c[if k < 1 then k else k + 1] != ref;
      assert k != 0 ==> list[k] != i;
    }
    Unlinked(pool, cap, lists, owner, i, 1, pool', owner', list);
  }

  lemma {:induction false} FreedMembers<D>(
    pool: seq<Entry<D>>, cap: nat, owner: seq<nat>, i: nat, c: seq<nat>, free: seq<nat>, pool': seq<Entry<D>>, owner': seq<nat>)
    requires cap < |pool| == |owner| == |pool'| == |owner'| && i < cap && |c| > 1
    requires ListOk(pool, cap, owner, i, c) && ListOk(pool, cap, owner, cap, free)
    requires forall p :: 0 <= p < |pool| ==> owner'[p] == if owner[p] == i && p > cap then cap else owner[p]
    requires forall p :: cap < p < |pool| ==> pool'[p].next == if p == c[|c| - 1] then First(free) else pool[p].next
    ensures ListOk(pool', cap, owner', cap, c[1..] + free)
  {
    var n, list := |c|, c[1..] + free;
    forall j | 0 <= j < |list|
      ensures Member(pool', cap, owner', cap, list, j)
    {
      assert Member(pool, cap, owner, i, c, n - 1);
      if j < n - 1 {
        assert Member(pool, cap, owner, i, c, j + 1);
        assert j < n - 2 ==> c[j + 1] != c[n - 1];
      } else {
        assert Member(pool, cap, owner, cap, free, j - (n - 1));
      }
    }
    forall a, b | 0 <= a < b < |list|
      ensures list[a] != list[b]
    {
      if b < n - 1 {
        assert c[a + 1] != c[b + 1];
      } else {
        assert Member(pool, cap, owner, cap, free, b - (n - 1));
        if a < n - 1 {
          assert Member(pool, cap, owner, i, c, a + 1);
        } else {
          assert free[a - (n - 1)] != free[b - (n - 1)];
        }
      }
    }
  }

  /** Put all entries of a chain but the first in front of the free list. */
  lemma {:induction false} FreeChain<D>(pool: seq<Entry<D>>, cap: nat, lists: seq<seq<nat>>, owner: seq<nat>, i: nat)
    returns (owner': seq<nat>)
    requires Shape(pool, cap, lists, owner, NIL) && i < cap && |lists[i]| > 1
    ensures var last := lists[i][|lists[i]| - 1];
      && lists[i][0] == i && lists[i][1] == pool[i].next && cap < last < |pool|
      && Shape(pool[last := pool[last].(next := pool[cap].next)][cap := pool[cap].(next := pool[i].next)], cap,
               lists[i := []][cap := lists[i][1..] + lists[cap]], owner', NIL)
  {
    var c, free := lists[i], lists[cap];
    var n := |c|;
    var last := c[n - 1];
    assert ListOk(pool, cap, owner, i, c) && ListOk(pool, cap, owner, cap, free);
    assert Member(pool, cap, owner, i, c, 0) && Member(pool, cap, owner, i, c, 1) && Member(pool, cap, owner, i, c, n - 1);
    var pool' := pool[last := pool[last].(next := pool[cap].next)][cap := pool[cap].(next := pool[i].next)];
    owner' := seq(|owner|, p requires 0 <= p < |owner| => if owner[p] == i && p > cap then cap else owner[p]);
    var list := c[1..] + free;
    FreedMembers(pool, cap, owner, i, c, free, pool', owner');
    forall h | 0 <= h < cap && h != i
      ensures ListOk(pool', cap, owner', h, lists[h])
    {
      assert ListOk(pool, cap, owner, h, lists[h]);
      Elsewhere(pool, cap, owner, h, lists[h], pool', owner');
    }
    var after := lists[i := []][cap := list];
    forall q | cap < q < |pool|
      ensures owner'[q] <= cap && q in after[owner'[q]]
    {
      assert q in lists[owner[q]];
      if owner[q] == i {
        var k :| 0 <= k < |c| && c[k] == q;
        assert list[k - 1] == q;
      } else if owner[q] == cap {
        var k :| 0 <= k < |free| && free[k] == q;
        assert list[n - 1 + k] == q;
      }
    }
  }

  // ---------- What the chains carry ----------

  /** Chain i carries the elements of chains[i], in order, under their hashes. */
  ghost predicate Carries<K, D>(pool: seq<Entry<D>>, cap: nat, lists: seq<seq<nat>>, key: D -> K, hash: K -> nat, chains: seq<seq<D>>) {
    && |lists| == cap + 1 && |chains| == cap
    && forall i :: 0 <= i < cap ==>
         CarriesAt(pool, lists[i], key, hash, chains[i])
  }

  ghost predicate CarriesAt<K, D>(pool: seq<Entry<D>>, list: seq<nat>, key: D -> K, hash: K -> nat, c: seq<D>) {
    && |c| == |list|
    && forall j :: 0 <= j < |list| ==> list[j] < |pool| && pool[list[j]].data == Has(c[j]) && pool[list[j]].hash == hash(key(c[j]))
  }

  /** The chains hold exactly the pairs of m, each key in its bucket, once. */
  ghost predicate Represents<K(!new), D(!new)>(chains: seq<seq<D>>, key: D -> K, hash: K -> nat, m: map<K, D>) {
    && |chains| > 0
    && (forall i, j {:trigger Right(chains, key, hash, m, i, j)} :: 0 <= i < |chains| && 0 <= j < |chains[i]| ==>
          Right(chains, key, hash, m, i, j))
    && (forall k {:trigger Listed(chains, key, hash, m, k)} :: k in m ==> Listed(chains, key, hash, m, k))
    && (forall i {:trigger DistinctKeys(chains[i], key)} :: 0 <= i < |chains| ==> DistinctKeys(chains[i], key))
  }

  ghost predicate Listed<K, D>(chains: seq<seq<D>>, key: D -> K, hash: K -> nat, m: map<K, D>, k: K)
    requires |chains| > 0 && k in m
  {
    key(m[k]) == k && m[k] in chains[hash(k) % |chains|]
  }

  ghost predicate DistinctKeys<K, D>(c: seq<D>, key: D -> K) {
    forall j, k :: 0 <= j < k < |c| ==> key(c[j]) != key(c[k])
  }

  ghost predicate Right<K, D>(chains: seq<seq<D>>, key: D -> K, hash: K -> nat, m: map<K, D>, i: nat, j: nat)
    requires i < |chains| && j < |chains[i]|
  {
    var d := chains[i][j];
    i == hash(key(d)) % |chains| && key(d) in m && m[key(d)] == d
  }

  lemma {:induction false} Present<K(!new), D(!new)>(chains: seq<seq<D>>, key: D -> K, hash: K -> nat, m: map<K, D>, k: K, j: nat)
    requires Represents(chains, key, hash, m)
    requires var i := hash(k) % |chains|; j < |chains[i]| && key(chains[i][j]) == k
    ensures k in m && m[k] == chains[hash(k) % |chains|][j]
  {
    assert Right(chains, key, hash, m, hash(k) % |chains|, j);
  }

  lemma {:induction false} Absent<K(!new), D(!new)>(chains: seq<seq<D>>, key: D -> K, hash: K -> nat, m: map<K, D>, k: K)
    requires Represents(chains, key, hash, m)
    requires var c := chains[hash(k) % |chains|]; forall j :: 0 <= j < |c| ==> key(c[j]) != k
    ensures k !in m
  {
    assert k in m ==> Listed(chains, key, hash, m, k);
  }

  lemma {:induction false} Added<K(!new), D(!new)>(chains: seq<seq<D>>, key: D -> K, hash: K -> nat, m: map<K, D>, d: D)
    requires Represents(chains, key, hash, m) && key(d) !in m
    ensures var i := hash(key(d)) % |chains|;
      Represents(chains[i := chains[i] + [d]], key, hash, m[key(d) := d])
  {
    var i := hash(key(d)) % |chains|;
    var after, m' := chains[i := chains[i] + [d]], m[key(d) := d];
    forall h, j | 0 <= h < |after| && 0 <= j < |after[h]|
      ensures Right(after, key, hash, m', h, j)
    {
      if h != i || j < |chains[i]| {
        assert Right(chains, key, hash, m, h, j);
      }
    }
    forall k | k in m'
      ensures Listed(after, key, hash, m', k)
    {
      if k == key(d) {
        assert after[i][|chains[i]|] == d;
      } else {
        assert Listed(chains, key, hash, m, k);
      }
    }
    forall h | 0 <= h < |after|
      ensures DistinctKeys(after[h], key)
    {
      assert DistinctKeys(chains[h], key);
      forall j, k | 0 <= j < k < |after[h]|
        ensures key(after[h][j]) != key(after[h][k])
      {
        assert Right(chains, key, hash, m, h, j);
      }
    }
  }

  lemma {:induction false} Removed<K(!new), D(!new)>(chains: seq<seq<D>>, key: D -> K, hash: K -> nat, m: map<K, D>, i: nat, j: nat)
    requires Represents(chains, key, hash, m) && i < |chains| && j < |chains[i]|
    ensures Represents(chains[i := Without(chains[i], j)], key, hash, m - {key(chains[i][j])})
  {
    var d := chains[i][j];
    var c, list := chains[i], Without(chains[i], j);
    var after, m' := chains[i := list], m - {key(d)};
    assert Right(chains, key, hash, m, i, j);
    forall h, k | 0 <= h < |after| && 0 <= k < |after[h]|
      ensures Right(after, key, hash, m', h, k)
    {
      var k' := if h == i && k >= j then k + 1 else k;
      assert Right(chains, key, hash, m, h, k') && after[h][k] == chains[h][k'];
      if h == i {
        assert DistinctKeys(chains[i], key) && key(c[k']) != key(d);
      }
    }
    forall k | k in m'
      ensures Listed(after, key, hash, m', k)
    {
      assert Listed(chains, key, hash, m, k);
      if hash(k) % |chains| == i {
        var a :| 0 <= a < |c| && c[a] == m[k];
        assert list[if a < j then a else a - 1] == m[k];
      }
    }
    forall h | 0 <= h < |after|
      ensures DistinctKeys(after[h], key)
    {
      assert DistinctKeys(chains[h], key);
    }
  }
}
