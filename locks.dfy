/**
 * The reentrant reader/writer lock that guards the cache, seen from the one
 * thread that calls it: how many times that thread holds the read lock and
 * the write lock, and a log of what the thread has done with the lock and
 * with the data it guards. The exclusion between threads is not modelled
 * here. What is kept is the library's rule for a single thread: it may
 * release only a lock it holds, and it cannot take the write lock while it
 * holds the read lock unless it already owns the write lock. The guarded
 * data may be read only under one of the two locks, and written only under
 * the write lock.
 */
module Locks {

  /** One step of the calling thread, as the lock's log records it. */
  datatype Event =
    | AcquireRead | ReleaseRead
    | AcquireWrite | ReleaseWrite
    | GuardedRead | GuardedWrite

  class ReadWriteLock {
    ghost var readHolds: nat
    ghost var writeHolds: nat
    ghost var events: seq<Event>

    /** The holds of the calling thread: read holds, then write holds. */
    ghost function Holds(): (nat, nat)
      reads this
    {
      (readHolds, writeHolds)
    }

    /** Neither lock is held. */
    ghost predicate Free()
      reads this
    {
      readHolds == 0 && writeHolds == 0
    }

    /** The guarded data may be read: either lock is held. */
    ghost predicate MayRead()
      reads this
    {
      readHolds > 0 || writeHolds > 0
    }

    /** The guarded data may be written: the write lock is held. */
    ghost predicate MayWrite()
      reads this
    {
      writeHolds > 0
    }

    constructor ()
      ensures Free() && events == []
    {
      readHolds, writeHolds := 0, 0;
      events := [];
    }

    /** `readLock.lock()`: one more hold of the read lock. */
    method LockRead()
      modifies this
      ensures readHolds == old(readHolds) + 1 && writeHolds == old(writeHolds)
      ensures events == old(events) + [AcquireRead]
    {
      readHolds := readHolds + 1;
      events := events + [AcquireRead];
    }

    /** `readLock.unlock()`: only a holder may release. */
    method UnlockRead()
      requires readHolds > 0
      modifies this
      ensures readHolds == old(readHolds) - 1 && writeHolds == old(writeHolds)
      ensures events == old(events) + [ReleaseRead]
    {
      readHolds := readHolds - 1;
      events := events + [ReleaseRead];
    }

    /**
     * `writeLock.lock()`: a read hold cannot be upgraded to a write hold,
     * but the thread that owns the write lock may take it again, even while
     * it also holds the read lock after a downgrade.
     */
    method LockWrite()
      requires readHolds == 0 || writeHolds > 0
      modifies this
      ensures writeHolds == old(writeHolds) + 1 && readHolds == old(readHolds)
      ensures events == old(events) + [AcquireWrite]
    {
      writeHolds := writeHolds + 1;
      events := events + [AcquireWrite];
    }

    /** `writeLock.unlock()`: only a holder may release. */
    method UnlockWrite()
      requires writeHolds > 0
      modifies this
      ensures writeHolds == old(writeHolds) - 1 && readHolds == old(readHolds)
      ensures events == old(events) + [ReleaseWrite]
    {
      writeHolds := writeHolds - 1;
      events := events + [ReleaseWrite];
    }

    /** Records a read of the guarded data, which needs one of the locks. */
    ghost method NoteRead()
      requires MayRead()
      modifies this
      ensures Holds() == old(Holds())
      ensures events == old(events) + [GuardedRead]
    {
      events := events + [GuardedRead];
    }

    /** Records a write of the guarded data, which needs the write lock. */
    ghost method NoteWrite()
      requires MayWrite()
      modifies this
      ensures Holds() == old(Holds())
      ensures events == old(events) + [GuardedWrite]
    {
      events := events + [GuardedWrite];
    }
  }
}
