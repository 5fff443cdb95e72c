/**
 * The instrumented mutex of `src/mutex.rs`: a key into the manager's table,
 * a sticky poison flag and the protected value. Locking goes through the
 * key's `LockRepresentation`; the manager's own exclusion is one atomic
 * step, and the calling thread, its backtrace token and whether it is
 * panicking are parameters.
 */
module Mutexes {
  import opened Locks

  /** `LockResult`: `Err` stands for a `PoisonError` carrying the same value. */
  datatype LockResult<T> = Ok(value: T) | Err(value: T)

  /** `TryLockResult` of a guard: `Ok`, or the `Poisoned` and `WouldBlock` errors. */
  datatype TryLockResult<T> = Acquired(guard: MutexGuard<T>) | Poisoned(guard: MutexGuard<T>) | WouldBlock

  /**
   * One iteration of `lock`'s loop: the lock was taken and `lock` returns, or it was not and
   * the thread yields, or it was not, the analysis timeout had passed and
   * the analysis ran (a verdict that `Panics()` is the source's panic).
   */
  datatype LockIteration<T> = Returned(result: LockResult<MutexGuard<T>>) | Yielded | Analysed(verdict: Verdict)

  class Mutex<T> {
    const key: nat
    const manager: LockManager
    var poisoned: bool
    var data: T

    /** The mutex is still registered with a consistent manager. */
    ghost predicate Valid()
      reads this, manager, manager.locks.Values
    {
      manager.Valid() && key in manager.locks
    }

    ghost function Representation(): LockRepresentation
      reads this, manager
      requires key in manager.locks
    {
      manager.locks[key]
    }

    /** `with_manager` (and `new`, on the global manager): registers one fresh lock, unpoisoned. */
    constructor (manager: LockManager, data: T)
      requires manager.Valid()
      modifies manager
      ensures Valid() && this.manager == manager && this.data == data && !poisoned
      ensures key == old(manager.nextKey) && manager.nextKey == key + 1 && key !in old(manager.locks)
      ensures manager.locks.Keys == old(manager.locks.Keys) + {key}
      ensures forall id :: id in old(manager.locks) ==> manager.locks[id] == old(manager.locks)[id]
      ensures fresh(Representation())
      ensures var r := Representation(); !r.writeLocked && r.readers == [] && r.requests == map[]
    {
      var k := manager.CreateLock();
      this.key := k;
      this.manager := manager;
      this.data := data;
      this.poisoned := false;
    }

    /** `is_poisoned`. */
    function IsPoisoned(): bool
      reads this
    {
      poisoned
    }

    /** `get_mut`: the value, as an error exactly when the mutex is poisoned. */
    function GetMut(): (r: LockResult<T>)
      reads this
      ensures r.value == data
      ensures r.Err? <==> IsPoisoned()
    {
      if poisoned then Err(data) else Ok(data)
    }

    /**
     * `try_lock`: takes the lock exactly when nobody holds it, poisoned or
     * not; the poison flag only decides how the guard is returned.
     */
    method TryLock(t: ThreadId, trace: Backtrace) returns (r: TryLockResult<T>)
      requires Valid()
      modifies Representation()
      ensures Valid()
      ensures r.WouldBlock? <==> old(Representation().readers) != []
      ensures r.WouldBlock? ==> unchanged(Representation())
      ensures !r.WouldBlock? ==>
        && Representation().writeLocked && Representation().readers == [(t, trace)]
        && Representation().requests == old(Representation().requests) - {t}
        && r.guard.mutex == this
        && (r.Poisoned? <==> poisoned)
    {
      var representation := manager.locks[key];
      var ok := representation.TryWriteLock(t, trace);
      if ok {
        var guard := new MutexGuard(this);
        if IsPoisoned() {
          r := Poisoned(guard);
        } else {
          r := Acquired(guard);
        }
      } else {
        r := WouldBlock;
      }
    }

    /**
     * One iteration of `lock`'s loop. `timedOut` says whether the analysis
     * timeout has passed since the call began.
     */
    method LockStep(t: ThreadId, trace: Backtrace, timedOut: bool) returns (r: LockIteration<T>)
      requires Valid()
      modifies Representation()
      ensures Valid()
      ensures r.Returned? <==> old(Representation().readers) == []
      ensures r.Returned? ==>
        && Representation().writeLocked && Representation().readers == [(t, trace)]
        && Representation().requests == old(Representation().requests) - {t}
        && r.result.value.mutex == this
        && (r.result.Err? <==> poisoned)
      ensures r.Yielded? <==> old(Representation().readers) != [] && !timedOut
      ensures r.Yielded? ==> unchanged(Representation())
      ensures r.Analysed? ==>
        && Representation().writeLocked == old(Representation().writeLocked)
        && Representation().readers == old(Representation().readers)
        && Subscribed(old(Representation().requests), Representation().requests, t, Write, trace)
        && manager.Explains(t, r.verdict)
    {
      var representation := manager.locks[key];
      var ok := representation.TryWriteLock(t, trace);
      if ok {
        var guard := new MutexGuard(this);
        if IsPoisoned() {
          return Returned(Err(guard));
        } else {
          return Returned(Ok(guard));
        }
      } else if timedOut {
        representation.SubscribeWrite(t, trace);
        var verdict := manager.Analyse(t);
        return Analysed(verdict);
      }
      return Yielded;
    }

    /** `into_inner`: unregisters the lock and hands back the value, as an error when poisoned. */
    method IntoInner() returns (r: LockResult<T>)
      requires Valid()
      modifies manager
      ensures manager.Valid()
      ensures manager.locks == old(manager.locks) - {key}
      ensures manager.nextKey == old(manager.nextKey)
      ensures r.value == data
      ensures r.Err? <==> poisoned
    {
      var wasPoisoned := poisoned;
      var value := data;
      manager.RemoveLock(key);
      if wasPoisoned {
        r := Err(value);
      } else {
        r := Ok(value);
      }
    }

    /** `Drop for Mutex`: unregisters the lock. */
    method Drop()
      requires Valid()
      modifies manager
      ensures manager.Valid()
      ensures manager.locks == old(manager.locks) - {key}
      ensures manager.nextKey == old(manager.nextKey)
    {
      manager.RemoveLock(key);
    }
  }

  /** A held lock; dropping it releases the lock. */
  class MutexGuard<T> {
    const mutex: Mutex<T>

    constructor (mutex: Mutex<T>)
      ensures this.mutex == mutex
    {
      this.mutex := mutex;
    }

    /**
     * `Drop for MutexGuard`: thread `t` unlocks, and the mutex becomes
     * poisoned if `t` is panicking; the flag is never cleared.
     */
    method Drop(t: ThreadId, panicking: bool)
      requires mutex.Valid()
      modifies mutex.Representation(), mutex`poisoned
      ensures mutex.Valid()
      ensures !mutex.Representation().writeLocked
      ensures mutex.Representation().readers == Released(old(mutex.Representation().readers), t)
      ensures mutex.Representation().requests == old(mutex.Representation().requests)
      ensures mutex.poisoned == (old(mutex.poisoned) || panicking)
    {
      var representation := mutex.manager.locks[mutex.key];
      representation.Unlock(t);
      if panicking {
        mutex.poisoned := true;
      }
    }
  }
}
