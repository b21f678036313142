# A verified model of a reader/writer-locked cache

The repository's core is `Cache<K, V>`. It is a key-value table held in a
private `HashMap`. Its `get` runs under the read lock of a
`ReentrantReadWriteLock`. Its `put`, `remove` and `clear` run under the write
lock. Its `size` reads the table without taking any lock.

This project models one thread's view of that object:

- `CacheSpec` (cache_spec.dfy) gives the table as a Dafny `map`.
  The three writes are data (`Op`); `Apply` is one write and `Run` is a history
  of writes. `LastWrite` is an independent per-key reference: the last write
  that touches a key decides what it holds. The lemmas connect the two views.
- `Locks` (locks.dfy) gives the lock as ghost hold counters and a ghost log
  of lock events and guarded accesses.
  Releasing requires a hold. Taking the write lock requires no read hold
  unless the thread already owns the write lock, because the Java lock cannot
  upgrade a read hold. A guarded read needs one of the locks, and a guarded
  write needs the write lock.
- `Caching` (cache.dfy) gives the class `Cache`.
  It has a `cache` map field and a `lock` field. A ghost `history` records the
  completed writes. Its invariant `Valid()` says two things: the table is
  exactly `Run(map[], history)`, and no lock is held between calls. `Get`
  reads the table through `ReadTable`. `Put`, `Remove` and `Clear` change it
  through `WriteTable`, which applies the write to the table under the write
  lock. Both helpers need the lock and log the access. `Size` reads `|cache|`
  with no lock. Each method states the exact new table and the returned
  value. It also states the exact events it adds to the lock's log (take the
  lock, touch the table, release the lock), so the lock holds end as they
  started.
- `CacheScenarios` (cache_scenarios.dfy) gives the sequential content of the
  test suite's assertions. Some are made after the worker threads join;
  others are reads a worker makes after its own put or after a latch. Each
  lemma holds for every order in which the write lock could serialise the
  writes.
- `Demo` (demo.dfy) runs the demonstration program's calls and proves its
  expected outputs.

Java's `null` result from `get` is `Option.None`.

## Model

| member | source | states |
|---|---|---|
| CacheSpec.Apply | src/main/java/mate/academy/Cache.java:26-44 | one put adds an entry exactly when its key was absent; one remove drops an entry exactly when its key was present and leaves the table identical when it was absent; a clear leaves no entry |
| CacheSpec.ApplyAt | src/main/java/mate/academy/Cache.java:26-44 | key by key, a put binds only its own key, a remove unbinds only its own key, a clear unbinds every key; every other key keeps its binding or its absence |
| CacheSpec.RunSnoc | src/main/java/mate/academy/Cache.java:23-48 | running a history and then one more write is running the longer history |
| CacheSpec.RunLastWrite | src/main/java/mate/academy/Cache.java:14-48 | what `get` finds at a key after any history is decided by the last write of that history touching the key, or by the initial table if none does |
| CacheSpec.RunUntouched | src/main/java/mate/academy/Cache.java:26-44 | a history that never writes to a key and never clears leaves that key as it was |
| CacheSpec.ValueWasWritten | src/main/java/mate/academy/Cache.java:17-26 | any value found at a key was put there by a put of the history, or was already there |
| Locks.ReadWriteLock.constructor | src/main/java/mate/academy/Cache.java:10-12 | a new lock is held by no one and has an empty log |
| Locks.ReadWriteLock.LockRead | src/main/java/mate/academy/Cache.java:15 | taking the read lock adds one read hold and logs it |
| Locks.ReadWriteLock.UnlockRead | src/main/java/mate/academy/Cache.java:19 | only a read holder may release the read lock; it drops one read hold and logs it |
| Locks.ReadWriteLock.LockWrite | src/main/java/mate/academy/Cache.java:24 | the write lock can be taken only without a read hold, unless the thread already owns the write lock; it adds one write hold and logs it |
| Locks.ReadWriteLock.UnlockWrite | src/main/java/mate/academy/Cache.java:28 | only a write holder may release the write lock; it drops one write hold and logs it |
| Caching.Cache.constructor | src/main/java/mate/academy/Cache.java:8-12 | a new cache has an empty table, an empty history and a free lock, so `get` finds nothing at any key |
| Caching.Cache.ReadTable | src/main/java/mate/academy/Cache.java:15-17 | the table is read only while one of the locks is held; the read is logged and returns what `HashMap.get` would |
| Caching.Cache.WriteTable | src/main/java/mate/academy/Cache.java:24-26 | the table is changed only while the write lock is held; the new table is the old one with the write applied, the write is appended to the history, and the write is logged |
| Caching.Cache.Get | src/main/java/mate/academy/Cache.java:14-21 | returns the bound value exactly when the key is bound and nothing otherwise (the table read is `CacheSpec.Lookup`, standing for `HashMap.get`); agrees with the last write to that key; changes neither table nor history; logs exactly: take the read lock, read the table, release the read lock |
| Caching.Cache.Put | src/main/java/mate/academy/Cache.java:23-30 | binds the key to the value, overwriting silently; every other key is unchanged; the size grows by one exactly when the key was new; the write is appended to the history; logs exactly: take the write lock, write the table, release the write lock |
| Caching.Cache.Remove | src/main/java/mate/academy/Cache.java:32-39 | unbinds the key; every other key is unchanged; an absent key leaves the table identical; the size drops by one exactly when the key was bound; logs exactly: take the write lock, write the table, release the write lock |
| Caching.Cache.Clear | src/main/java/mate/academy/Cache.java:41-48 | leaves no entry, so `get` finds nothing at any key; logs exactly: take the write lock, write the table, release the write lock |
| Caching.Cache.Size | src/main/java/mate/academy/Cache.java:50-52 | returns the number of entries and changes nothing, not even the lock or its log, since it modifies no object |
| CacheScenarios.DistinctPutsFill | src/test/java/mate/academy/CacheTest.java:33-53 | puts to distinct keys that were not bound add one entry each and each key reads back its own value |
| CacheScenarios.PutDistinctThenRead | src/test/java/mate/academy/CacheTest.java:83-96 | on a fresh cache, one put per distinct key gives a size equal to the number of keys, and every key reads back the value put for it |
| CacheScenarios.RepeatedReadsAgree | src/test/java/mate/academy/CacheTest.java:56-79 | after one put, any number of reads of that key on the same cache all return the put value |
| CacheScenarios.LastPutWins | src/test/java/mate/academy/CacheTest.java:102-116 | a run of puts to one key leaves the last value written, whatever the key held before |
| CacheScenarios.InterleavesLast | src/test/java/mate/academy/CacheTest.java:209-211 | any merge of two non-empty write sequences that end with the same value ends with that value |
| CacheScenarios.ConcurrentOverwritesLastValue | src/test/java/mate/academy/CacheTest.java:205-219 | two writers that each end with the same value leave that value, in any interleaving of their puts |
| CacheScenarios.OverwritesLeaveAWrittenValue | src/test/java/mate/academy/CacheTest.java:151-177 | many puts to one key of a fresh cache leave a table with that one key only, holding one of the written values |
| CacheScenarios.RepeatedClearsEmpty | src/test/java/mate/academy/CacheTest.java:130-145 | any non-empty run of clears empties the table, so clear is idempotent |
| Demo.Scenario | src/main/java/mate/academy/Main.java:6-21 | after putting 1 to "A" and 2 to "B", `get` finds "A", "B" and nothing for 3; after a clear it finds nothing for 1 |

## Left out

- Mutual exclusion between threads, blocking, fairness and linearizability of `ReentrantReadWriteLock`: the model has one calling thread. Its lock is counters, so every `lock()` succeeds at once. The concurrent tests appear only as lemmas over every possible order of the serialised writes.
- Reentrancy beyond counting, and lock downgrading: the counters allow them, but no cache method uses them.
- Caching.Cache.Get/Put/Remove/Clear: the lock's log records the calls to `ReadTable` and `WriteTable`, and those calls need the lock. No contract rules out a direct access to the `cache` field outside those helpers, because Dafny has no private fields.
- Caching.Cache.Get/Put/Remove/Clear: the exception path of the `try`/`finally` pairs is not modelled. A key's `hashCode` or `equals` can throw inside `HashMap`, and a resize in `put` can run out of memory; `finally` then releases the lock and the exception propagates. The model has no exceptional exit, so lock balance is proved only for normal completion.
- Hashing, buckets and resizing inside `HashMap`: the field is an abstract Dafny `map`.
- `null` keys and `null` values, which `HashMap` accepts: absence is `Option.None`, and a stored value cannot be absent.
- Caching.Cache.Size: it returns an unbounded `int`. `HashMap.size()` is a Java `int` that cannot exceed `Integer.MAX_VALUE`. A table that large is not modelled.
- `size` takes no lock. Read concurrently with a write, it is a data race under the Java memory model. A count consistent with some point in time would need the read lock, which `size` does not take. The model follows the code, and the race cannot be expressed with one thread.
- The thread pools, latches, sleeps, timeouts and repetitions of the test suite, and the reads that run concurrently with writes: only the sequential content of the assertions is modelled.
- The console output of the demonstration program: `Demo.Scenario` returns the four values that it prints.
