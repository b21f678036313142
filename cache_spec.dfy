/**
 * The sequential meaning of the cache: the stored table as a value, the
 * three writing operations as data, and the table that a history of
 * completed writes produces when they are applied in order.
 */
module CacheSpec {

  /** What `get` returns: the bound value, or `None` where Java returns null. */
  datatype Option<T> = None | Some(value: T)

  /** A completed writing operation on the table. */
  datatype Op<K, V> = Put(key: K, value: V) | Remove(key: K) | Clear

  /** `HashMap.get`: the value bound to `k`, if any. */
  function Lookup<K, V>(m: map<K, V>, k: K): Option<V>
  {
    if k in m then Some(m[k]) else None
  }

  /** Whether `op` can change the binding of `k`. */
  predicate Touches<K(==), V>(op: Op<K, V>, k: K)
  {
    op.Clear? || op.key == k
  }

  /** What `op` leaves at one key, given what was there before. */
  function Effect<K(==), V>(op: Op<K, V>, k: K, before: Option<V>): Option<V>
  {
    if !Touches(op, k) then before
    else if op.Put? then Some(op.value)
    else None
  }

  /**
   * The table after one operation, as `HashMap.put`, `HashMap.remove` and
   * `HashMap.clear` leave it; `ApplyAt` says what it does key by key.
   */
  function Apply<K, V>(m: map<K, V>, op: Op<K, V>): (r: map<K, V>)
    ensures op.Put? ==> |r| == if op.key in m then |m| else |m| + 1
    ensures op.Remove? ==> |r| == if op.key in m then |m| - 1 else |m|
    ensures op.Remove? && op.key !in m ==> r == m
    ensures op.Clear? ==> |r| == 0
  {
    match op
    case Put(k, v) => m[k := v]
    case Remove(k) =>
      var r := m - {k};
      assert op.key in m ==> m.Keys == r.Keys + {k};
      r
    case Clear => map[]
  }

  /**
   * Key by key, one operation agrees with `Effect`: a put binds exactly its
   * key, a remove unbinds exactly its key, a clear unbinds every key.
   */
  lemma ApplyAt<K, V>(m: map<K, V>, op: Op<K, V>, k: K)
    ensures Lookup(Apply(m, op), k) == Effect(op, k, Lookup(m, k))
  {
  }

  /** The table after a history of completed writes, applied first to last. */
  function Run<K, V>(m: map<K, V>, ops: seq<Op<K, V>>): map<K, V>
    decreases |ops|
  {
    if ops == [] then m else Run(Apply(m, ops[0]), ops[1..])
  }

  /**
   * Reference semantics for one key, independent of the table: the last
   * operation of the history that touches `k` decides what `k` holds; if
   * none does, `k` holds what it held in `m`.
   */
  function LastWrite<K(==), V>(m: map<K, V>, ops: seq<Op<K, V>>, k: K): Option<V>
    decreases |ops|
  {
    if ops == [] then Lookup(m, k)
    else
      var last := ops[|ops| - 1];
      if !Touches(last, k) then LastWrite(m, ops[..|ops| - 1], k)
      else if last.Put? then Some(last.value)
      else None
  }

  /** Applying one more operation after a history is running the longer history. */
  lemma {:induction false} RunSnoc<K, V>(m: map<K, V>, ops: seq<Op<K, V>>, op: Op<K, V>)
    ensures Run(m, ops + [op]) == Apply(Run(m, ops), op)
    decreases |ops|
  {
    if ops == [] {
      assert [op][1..] == [];
    } else {
      assert (ops + [op])[0] == ops[0];
      assert (ops + [op])[1..] == ops[1..] + [op];
      RunSnoc(Apply(m, ops[0]), ops[1..], op);
    }
  }

  /** The table agrees, key by key, with the last-write reference semantics. */
  lemma {:induction false} RunLastWrite<K, V>(m: map<K, V>, ops: seq<Op<K, V>>, k: K)
    ensures Lookup(Run(m, ops), k) == LastWrite(m, ops, k)
    decreases |ops|
  {
    if ops != [] {
      var init, last := ops[..|ops| - 1], ops[|ops| - 1];
      assert ops == init + [last];
      RunSnoc(m, init, last);
      ApplyAt(Run(m, init), last, k);
      RunLastWrite(m, init, k);
    }
  }

  /** Running a history that never touches `k` leaves `k` as it was. */
  lemma {:induction false} RunUntouched<K, V>(m: map<K, V>, ops: seq<Op<K, V>>, k: K)
    requires forall i :: 0 <= i < |ops| ==> !Touches(ops[i], k)
    ensures Lookup(Run(m, ops), k) == Lookup(m, k)
    decreases |ops|
  {
    if ops != [] {
      ApplyAt(m, ops[0], k);
      RunUntouched(Apply(m, ops[0]), ops[1..], k);
    }
  }

  /**
   * No value appears from nowhere: whatever a key holds after a history was
   * either written to it by a put of that history or held there before.
   */
  lemma {:induction false} ValueWasWritten<K, V>(m: map<K, V>, ops: seq<Op<K, V>>, k: K, v: V)
    requires Lookup(Run(m, ops), k) == Some(v)
    ensures Put(k, v) in ops || Lookup(m, k) == Some(v)
  {
    RunLastWrite(m, ops, k);
    LastWriteProvenance(m, ops, k, v);
  }

  lemma {:induction false} LastWriteProvenance<K, V>(m: map<K, V>, ops: seq<Op<K, V>>, k: K, v: V)
    requires LastWrite(m, ops, k) == Some(v)
    ensures Put(k, v) in ops || Lookup(m, k) == Some(v)
    decreases |ops|
  {
    if ops != [] {
      var init, last := ops[..|ops| - 1], ops[|ops| - 1];
      assert ops == init + [last];
      if Touches(last, k) {
        assert last == Put(k, v);
      } else {
        LastWriteProvenance(m, init, k, v);
      }
    }
  }
}
