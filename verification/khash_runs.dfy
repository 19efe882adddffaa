/**
  Whole runs of the hash table against a finite map.
*/
module KhashRuns {
  import opened Khash
  import RoundUp

  datatype Op<K, V> = Store(key: K, val: V) | Lookup(key: K) | Remove(key: K) | Clear | Resize(n: nat)

  datatype Answer<V> = Absent | Present(val: V)

  /** What an operation does to a map, and what it answers. */
  function MapStep<K, V>(m: map<K, V>, op: Op<K, V>): map<K, V> {
    match op
    case Store(k, v) => m[k := v]
    case Lookup(_) => m
    case Remove(k) => m - {k}
    case Clear => map[]
    case Resize(_) => m
  }

  function MapAnswer<K, V>(m: map<K, V>, op: Op<K, V>): Answer<V> {
    match op
    case Lookup(k) => if k in m then Present(m[k]) else Absent
    case _ => Absent
  }

  function MapRun<K, V>(m: map<K, V>, ops: seq<Op<K, V>>): map<K, V>
    decreases |ops|
  {
    if ops == [] then m else MapRun(MapStep(m, ops[0]), ops[1..])
  }

  function MapAnswers<K, V>(m: map<K, V>, ops: seq<Op<K, V>>): seq<Answer<V>>
    decreases |ops|
  {
    if ops == [] then [] else [MapAnswer(m, ops[0])] + MapAnswers(MapStep(m, ops[0]), ops[1..])
  }

  /** The map never outgrows the largest table, and sizes asked for fit a word. */
  predicate Fits<K, V>(m: map<K, V>, ops: seq<Op<K, V>>)
    decreases |ops|
  {
    ops == [] || (|m| < MAX_BUCKETS && (ops[0].Resize? ==> ops[0].n < RoundUp.WORD) && Fits(MapStep(m, ops[0]), ops[1..]))
  }

  method PerformStore<K(==,0,!new), V(0,!new)>(t: Table<K, V>, k: K, v: V)
    requires t.Valid() && t.size < MAX_BUCKETS
    modifies t, t.flags, t.keys, t.vals
    ensures t.Valid() && t.Contents() == old(t.Contents())[k := v]
    ensures t.flags == old(t.flags) || fresh(t.flags)
    ensures t.keys == old(t.keys) || fresh(t.keys)
    ensures t.vals == old(t.vals) || fresh(t.vals)
  {
    ghost var m := t.Contents();
    var x, ret := t.Put(k);
    assert t.At(x, k);
    Overwritten(m, t.Contents(), k, t.vals[x], v);
    t.SetValue(x, v);
  }

  lemma {:induction false} Overwritten<K, V>(m: map<K, V>, m1: map<K, V>, k: K, w: V, v: V)
    requires m1 == m || m1 == m[k := w]
    ensures m1[k := v] == m[k := v]
  {
  }

  method PerformLookup<K(==,0,!new), V(0,!new)>(t: Table<K, V>, k: K) returns (a: Answer<V>)
    requires t.Valid()
    ensures a == MapAnswer(t.Contents(), Op<K, V>.Lookup(k))
  {
    var x := t.Get(k);
    a := if x != t.nBuckets then Present(t.vals[x]) else Absent;
  }

  method PerformRemove<K(==,0,!new), V(0,!new)>(t: Table<K, V>, k: K)
    requires t.Valid()
    modifies t, t.flags
    ensures t.Valid() && t.Contents() == old(t.Contents()) - {k}
    ensures t.flags == old(t.flags) && t.keys == old(t.keys) && t.vals == old(t.vals)
  {
    var x := t.Get(k);
    if k !in t.Contents() {
      assert t.Contents() - {k} == t.Contents();
    }
    t.Del(x);
  }

  /** One operation on the table, as its users perform it. */
  method Perform<K(==,0,!new), V(0,!new)>(t: Table<K, V>, op: Op<K, V>) returns (a: Answer<V>)
    requires t.Valid() && t.size < MAX_BUCKETS && (op.Resize? ==> op.n < RoundUp.WORD)
    modifies t, t.flags, t.keys, t.vals
    ensures t.Valid() && t.Contents() == MapStep(old(t.Contents()), op) && a == MapAnswer(old(t.Contents()), op)
    ensures t.flags == old(t.flags) || fresh(t.flags)
    ensures t.keys == old(t.keys) || fresh(t.keys)
    ensures t.vals == old(t.vals) || fresh(t.vals)
  {
    a := Absent;
    match op {
      case Store(k, v) => PerformStore(t, k, v);
      case Lookup(k) => a := PerformLookup(t, k);
      case Remove(k) => PerformRemove(t, k);
      case Clear => t.Clear();
      case Resize(n) => t.Resize(n);
    }
  }

  /** Over any sequence of operations the table answers as a finite map does. */
  method Run<K(==,0,!new), V(0,!new)>(t: Table<K, V>, ops: seq<Op<K, V>>) returns (answers: seq<Answer<V>>)
    requires t.Valid() && Fits(t.Contents(), ops)
    modifies t, t.flags, t.keys, t.vals
    ensures t.Valid() && t.Contents() == MapRun(old(t.Contents()), ops)
    ensures answers == MapAnswers(old(t.Contents()), ops)
  {
    answers := [];
    ghost var m := t.Contents();
    var i := 0;
    assert ops[0..] == ops;
    while i < |ops|
      invariant 0 <= i <= |ops| && t.Valid()
      invariant t.flags == old(t.flags) || fresh(t.flags)
      invariant t.keys == old(t.keys) || fresh(t.keys)
      invariant t.vals == old(t.vals) || fresh(t.vals)
      invariant Underway(m, ops, i, t.Contents(), answers)
    {
      t.Counted();
      ghost var before := t.Contents();
      OneStep(m, ops, i, before, answers);
      var a := Perform(t, ops[i]);
      answers := answers + [a];
      i := i + 1;
    }
    assert ops[i..] == [];
  }

  /** After i operations, with the rest of them still to come. */
  ghost predicate Underway<K, V>(m: map<K, V>, ops: seq<Op<K, V>>, i: nat, now: map<K, V>, answers: seq<Answer<V>>) {
    && i <= |ops| && Fits(now, ops[i..]) && MapRun(m, ops) == MapRun(now, ops[i..])
    && MapAnswers(m, ops) == answers + MapAnswers(now, ops[i..])
  }

  lemma {:induction false} OneStep<K, V>(m: map<K, V>, ops: seq<Op<K, V>>, i: nat, now: map<K, V>, answers: seq<Answer<V>>)
    requires i < |ops| && Underway(m, ops, i, now, answers)
    ensures |now| < MAX_BUCKETS && (ops[i].Resize? ==> ops[i].n < RoundUp.WORD)
    ensures Underway(m, ops, i + 1, MapStep(now, ops[i]), answers + [MapAnswer(now, ops[i])])
  {
    assert ops[i..][0] == ops[i] && ops[i..][1..] == ops[i + 1..];
    AnswersSplit(now, ops[i..], answers, MapAnswer(now, ops[i]));
  }

  lemma {:induction false} AnswersSplit<K, V>(m: map<K, V>, ops: seq<Op<K, V>>, answers: seq<Answer<V>>, a: Answer<V>)
    requires ops != [] && a == MapAnswer(m, ops[0])
    ensures answers + MapAnswers(m, ops) == answers + [a] + MapAnswers(MapStep(m, ops[0]), ops[1..])
  {
  }
}
