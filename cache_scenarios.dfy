/**
 * The sequential content of what the cache's test suite asserts, stated over
 * histories: the checks made after the worker threads join, and the reads a
 * worker makes after its own put or after a latch has seen another thread's
 * put. The write lock serialises the writes in some order; each lemma below
 * holds for every such order, since it holds for every history of the
 * stated shape.
 */
module CacheScenarios {
  import opened CacheSpec
  import opened Caching

  /** A history made only of puts, to pairwise distinct keys. */
  ghost predicate DistinctPuts<K, V>(ops: seq<Op<K, V>>)
  {
    && (forall i :: 0 <= i < |ops| ==> ops[i].Put?)
    && (forall i, j :: 0 <= i < j < |ops| ==> ops[i].key != ops[j].key)
  }

  /**
   * Puts to distinct keys, none bound beforehand, each add one entry and
   * each stay readable with its own value.
   */
  lemma {:induction false} DistinctPutsFill<K, V>(m: map<K, V>, ops: seq<Op<K, V>>)
    requires DistinctPuts(ops)
    requires forall i :: 0 <= i < |ops| ==> ops[i].key !in m
    ensures |Run(m, ops)| == |m| + |ops|
    ensures forall i :: 0 <= i < |ops| ==> Lookup(Run(m, ops), ops[i].key) == Some(ops[i].value)
    decreases |ops|
  {
    if ops != [] {
      var m', rest := Apply(m, ops[0]), ops[1..];
      forall i | 0 <= i < |rest|
        ensures rest[i].key !in m'
      {
        assert rest[i] == ops[i + 1];
        ApplyAt(m, ops[0], rest[i].key);
      }
      assert DistinctPuts(rest) by {
        forall i, j | 0 <= i < j < |rest|
          ensures rest[i].key != rest[j].key
        {
          assert rest[i] == ops[i + 1] && rest[j] == ops[j + 1];
        }
      }
      DistinctPutsFill(m', rest);
      forall i | 0 <= i < |rest|
        ensures !Touches(rest[i], ops[0].key)
      {
        assert rest[i] == ops[i + 1];
      }
      RunUntouched(m', rest, ops[0].key);
      ApplyAt(m, ops[0], ops[0].key);
      forall i | 0 <= i < |ops|
        ensures Lookup(Run(m, ops), ops[i].key) == Some(ops[i].value)
      {
        if i > 0 {
          assert ops[i] == rest[i - 1];
        }
      }
    }
  }

  /** The puts of a list of keys, each with the value at the same position. */
  function PutAll<K, V>(keys: seq<K>, vals: seq<V>): (ops: seq<Op<K, V>>)
    requires |keys| == |vals|
    ensures |ops| == |keys|
    ensures forall i :: 0 <= i < |keys| ==> ops[i] == Op.Put(keys[i], vals[i])
  {
    seq(|keys|, i requires 0 <= i < |keys| => Op.Put(keys[i], vals[i]))
  }

  /**
   * The sequential content of the tests that put distinct keys from separate
   * threads and then check the size and read every key back: a fresh cache
   * that has seen one put per key, in the loop's order, holds exactly those
   * entries.
   */
  method PutDistinctThenRead<K(==), V>(keys: seq<K>, vals: seq<V>) returns (n: int, got: seq<Option<V>>)
    requires |keys| == |vals|
    requires forall i, j :: 0 <= i < j < |keys| ==> keys[i] != keys[j]
    ensures n == |keys|
    ensures |got| == |keys|
    ensures forall i :: 0 <= i < |keys| ==> got[i] == Some(vals[i])
  {
    var c := new Cache<K, V>();
    var i := 0;
    while i < |keys|
      invariant 0 <= i <= |keys|
      invariant c.Valid()
      invariant c.history == PutAll(keys[..i], vals[..i])
    {
      c.Put(keys[i], vals[i]);
      assert PutAll(keys[..i + 1], vals[..i + 1]) == PutAll(keys[..i], vals[..i]) + [Op.Put(keys[i], vals[i])];
      i := i + 1;
    }
    assert keys[..i] == keys && vals[..i] == vals;
    ghost var ops := PutAll(keys, vals);
    DistinctPutsFill(map[], ops);
    n := c.Size();
    got := [];
    var j := 0;
    while j < |keys|
      invariant 0 <= j <= |keys|
      invariant c.Valid() && c.cache == Run(map[], ops)
      invariant |got| == j
      invariant forall t :: 0 <= t < j ==> got[t] == Some(vals[t])
    {
      var r := c.Get(keys[j]);
      assert ops[j].key == keys[j];
      got := got + [r];
      j := j + 1;
    }
  }

  /**
   * The sequential content of the read-only test: after one put, any number
   * of reads of that key all see the same value, because a read changes
   * nothing.
   */
  method RepeatedReadsAgree<V>(v: V, readers: nat) returns (seen: seq<Option<V>>)
    ensures |seen| == readers
    ensures forall i :: 0 <= i < readers ==> seen[i] == Some(v)
  {
    var c := new Cache<int, V>();
    c.Put(1, v);
    seen := [];
    while |seen| < readers
      invariant c.Valid() && Lookup(c.cache, 1) == Some(v)
      invariant |seen| <= readers
      invariant forall i :: 0 <= i < |seen| ==> seen[i] == Some(v)
    {
      var r := c.Get(1);
      seen := seen + [r];
    }
  }

  /**
   * A run of puts to one key from one thread leaves the last value written,
   * whatever the key held before.
   */
  lemma LastPutWins<K, V>(m: map<K, V>, k: K, vs: seq<V>)
    requires vs != []
    ensures Lookup(Run(m, PutAll(seq(|vs|, _ => k), vs)), k) == Some(vs[|vs| - 1])
  {
    RunLastWrite(m, PutAll(seq(|vs|, _ => k), vs), k);
  }

  /** `c` is one way of merging `a` and `b`, each kept in its own order. */
  ghost predicate Interleaves<T>(c: seq<T>, a: seq<T>, b: seq<T>)
    decreases |c|
  {
    if c == [] then a == [] && b == []
    else
      || (a != [] && c[0] == a[0] && Interleaves(c[1..], a[1..], b))
      || (b != [] && c[0] == b[0] && Interleaves(c[1..], a, b[1..]))
  }

  lemma {:induction false} InterleavesNoneLeft<T>(c: seq<T>, b: seq<T>)
    requires Interleaves(c, [], b)
    ensures c == b
    decreases |c|
  {
    if c != [] {
      InterleavesNoneLeft(c[1..], b[1..]);
    }
  }

  lemma {:induction false} InterleavesNoneRight<T>(c: seq<T>, a: seq<T>)
    requires Interleaves(c, a, [])
    ensures c == a
    decreases |c|
  {
    if c != [] {
      InterleavesNoneRight(c[1..], a[1..]);
    }
  }

  /** A merge of two non-empty sequences that end alike ends like them. */
  lemma {:induction false} InterleavesLast<T>(c: seq<T>, a: seq<T>, b: seq<T>)
    requires Interleaves(c, a, b)
    requires a != [] && b != [] && a[|a| - 1] == b[|b| - 1]
    ensures c != [] && c[|c| - 1] == a[|a| - 1]
    decreases |c|
  {
    if a != [] && c[0] == a[0] && Interleaves(c[1..], a[1..], b) {
      if |a| == 1 {
        InterleavesNoneLeft(c[1..], b);
      } else {
        InterleavesLast(c[1..], a[1..], b);
      }
    } else {
      if |b| == 1 {
        InterleavesNoneRight(c[1..], a);
      } else {
        InterleavesLast(c[1..], a, b[1..]);
      }
    }
  }

  /**
   * Two writers that each put the same final value to one key, in whatever
   * way the lock interleaves their puts, leave that final value.
   */
  lemma ConcurrentOverwritesLastValue<K, V>(m: map<K, V>, k: K, a: seq<V>, b: seq<V>, c: seq<V>)
    requires Interleaves(c, a, b)
    requires a != [] && b != [] && a[|a| - 1] == b[|b| - 1]
    ensures Lookup(Run(m, PutAll(seq(|c|, _ => k), c)), k) == Some(a[|a| - 1])
  {
    InterleavesLast(c, a, b);
    LastPutWins(m, k, c);
  }

  /**
   * Many writers overwriting one key of a fresh cache, in any order: the key
   * ends up holding one of the values that were written.
   */
  lemma OverwritesLeaveAWrittenValue<K, V>(k: K, vs: seq<V>)
    requires vs != []
    ensures Run(map[], PutAll(seq(|vs|, _ => k), vs)) == map[k := vs[|vs| - 1]]
    ensures exists i :: 0 <= i < |vs| && Lookup(Run(map[], PutAll(seq(|vs|, _ => k), vs)), k) == Some(vs[i])
  {
    var ops := PutAll(seq(|vs|, _ => k), vs);
    LastPutWins(map[], k, vs);
    OnlyKeyWritten(map[], ops, k);
  }

  /** A history of puts to `k` alone, from the empty table, binds `k` and nothing else. */
  lemma {:induction false} OnlyKeyWritten<K, V>(m: map<K, V>, ops: seq<Op<K, V>>, k: K)
    requires m.Keys <= {k}
    requires forall i :: 0 <= i < |ops| ==> ops[i].Put? && ops[i].key == k
    ensures Run(m, ops).Keys <= {k}
    decreases |ops|
  {
    if ops != [] {
      OnlyKeyWritten(Apply(m, ops[0]), ops[1..], k);
    }
  }

  /**
   * Any number of clears, one after another, empty the table; a clear that
   * follows a clear finds nothing to remove.
   */
  lemma {:induction false} RepeatedClearsEmpty<K, V>(m: map<K, V>, ops: seq<Op<K, V>>)
    requires ops != []
    requires forall i :: 0 <= i < |ops| ==> ops[i].Clear?
    ensures Run(m, ops) == map[]
    decreases |ops|
  {
    if |ops| > 1 {
      RepeatedClearsEmpty(Apply(m, ops[0]), ops[1..]);
    }
  }
}
