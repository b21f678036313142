/**
 * The cache object: a table updated in place, guarded by a reader/writer
 * lock. Beside the table the object keeps, as ghost state, the history of
 * writes it has completed; its invariant is that the table is exactly what
 * that history produces from the empty table, and that no lock is held
 * between calls. `Get` reads the table through `ReadTable`; `Put`, `Remove`
 * and `Clear` change it through `WriteTable`, which builds the new table
 * from the old one itself. Both helpers need the lock and record the access
 * in the lock's log, so a method's contract can state in what order it
 * locked, touched the table and unlocked. `Size` reads the table's size
 * with no lock.
 */
module Caching {
  import opened CacheSpec
  import opened Locks

  class Cache<K(==), V> {
    var cache: map<K, V>
    const lock: ReadWriteLock
    ghost var history: seq<Op<K, V>>

    ghost predicate Valid()
      reads this, lock
    {
      && cache == Run(map[], history)
      && lock.Free()
    }

    /** `new Cache<>()`: an empty table and a free lock. */
    constructor ()
      ensures Valid() && fresh(lock)
      ensures history == [] && cache == map[]
      ensures forall k :: Lookup(cache, k) == None
    {
      cache := map[];
      lock := new ReadWriteLock();
      history := [];
    }

    /** Reads the table at `key`; one of the locks must be held. */
    method ReadTable(key: K) returns (r: Option<V>)
      requires lock.MayRead()
      modifies lock
      ensures r == Lookup(cache, key)
      ensures lock.Holds() == old(lock.Holds())
      ensures lock.events == old(lock.events) + [GuardedRead]
    {
      lock.NoteRead();
      r := Lookup(cache, key);
    }

    /**
     * Applies `op` to the table and records it in the history; the write
     * lock must be held.
     */
    method WriteTable(op: Op<K, V>)
      requires lock.MayWrite()
      modifies this, lock
      ensures cache == Apply(old(cache), op)
      ensures history == old(history) + [op]
      ensures lock.Holds() == old(lock.Holds())
      ensures lock.events == old(lock.events) + [GuardedWrite]
    {
      lock.NoteWrite();
      match op {
        case Put(k, v) => cache := cache[k := v];
        case Remove(k) => cache := cache - {k};
        case Clear => cache := map[];
      }
      history := history + [op];
    }

    /**
     * `get`: under the read lock, the value bound to `key`, or `None`. The
     * table is not changed; the read lock is taken, the table read and the
     * read lock released, in that order, so the lock is left as found.
     */
    method Get(key: K) returns (r: Option<V>)
      requires Valid()
      modifies lock
      ensures Valid() && unchanged(this) && lock.Holds() == old(lock.Holds())
      ensures r.Some? <==> key in cache
      ensures r.Some? ==> r.value == cache[key]
      ensures r == LastWrite(map[], history, key)
      ensures lock.events == old(lock.events) + [AcquireRead, GuardedRead, ReleaseRead]
    {
      lock.LockRead();
      r := ReadTable(key);
      lock.UnlockRead();
      RunLastWrite(map[], history, key);
    }

    /**
     * `put`: under the write lock, bind `key` to `value`, overwriting any
     * earlier binding; every other key keeps its binding or its absence. The
     * write lock is taken, the table written and the write lock released.
     */
    method Put(key: K, value: V)
      requires Valid()
      modifies this, lock
      ensures Valid() && lock.Holds() == old(lock.Holds())
      ensures history == old(history) + [Op.Put(key, value)]
      ensures cache == Apply(old(cache), Op.Put(key, value))
      ensures Lookup(cache, key) == Some(value)
      ensures forall k :: k != key ==> Lookup(cache, k) == Lookup(old(cache), k)
      ensures |cache| == if key in old(cache) then |old(cache)| else |old(cache)| + 1
      ensures lock.events == old(lock.events) + [AcquireWrite, GuardedWrite, ReleaseWrite]
    {
      lock.LockWrite();
      WriteTable(Op.Put(key, value));
      lock.UnlockWrite();
      RunSnoc(map[], old(history), Op.Put(key, value));
    }

    /**
     * `remove`: under the write lock, unbind `key`; every other key keeps its
     * binding or its absence, and removing an absent key changes nothing.
     */
    method Remove(key: K)
      requires Valid()
      modifies this, lock
      ensures Valid() && lock.Holds() == old(lock.Holds())
      ensures history == old(history) + [Op.Remove(key)]
      ensures cache == Apply(old(cache), Op.Remove(key))
      ensures Lookup(cache, key) == None
      ensures forall k :: k != key ==> Lookup(cache, k) == Lookup(old(cache), k)
      ensures key !in old(cache) ==> cache == old(cache)
      ensures |cache| == if key in old(cache) then |old(cache)| - 1 else |old(cache)|
      ensures lock.events == old(lock.events) + [AcquireWrite, GuardedWrite, ReleaseWrite]
    {
      lock.LockWrite();
      WriteTable(Op.Remove(key));
      lock.UnlockWrite();
      RunSnoc(map[], old(history), Op.Remove(key));
    }

    /** `clear`: under the write lock, unbind every key. */
    method Clear()
      requires Valid()
      modifies this, lock
      ensures Valid() && lock.Holds() == old(lock.Holds())
      ensures history == old(history) + [Op.Clear]
      ensures cache == Apply(old(cache), Op.Clear)
      ensures forall k :: Lookup(cache, k) == None
      ensures |cache| == 0
      ensures lock.events == old(lock.events) + [AcquireWrite, GuardedWrite, ReleaseWrite]
    {
      lock.LockWrite();
      WriteTable(Op.Clear);
      lock.UnlockWrite();
      RunSnoc(map[], old(history), Op.Clear);
    }

    /**
     * `size`: the number of bound keys, read without taking the lock; it
     * modifies no object, so the lock and its log are as they were.
     */
    method Size() returns (n: int)
      ensures n == |cache|
    {
      n := |cache|;
    }
  }
}
