/**
 threads/synch.cc: the objects of class Lock and class Condition, and threads/synchlist.cc: the object
 of class SynchList. Each method is a stretch of code without a chance of preemption, or, where it
 holds several such stretches, what they do when nobody steps in between; modules Monitors and
 SynchLists say what happens when somebody does.
*/
module MonitorObjects {
  import opened Common
  import opened Semaphores

  class Lock {
    const semaphore: Semaphore
    var lockHolder: Option<Tid>

    ghost predicate Valid()
      reads this, semaphore
    {
      SemOk(semaphore.State()) && 0 <= semaphore.value <= 1 && (lockHolder.Some? ==> semaphore.value == 0)
    }

    constructor ()
      ensures Valid() && fresh(semaphore)
      ensures semaphore.State() == Sem(1, [], {}) && lockHolder == None
    {
      semaphore := new Semaphore(1);
      lockHolder := None;
    }

    predicate IsHeldBy(current: Tid)
      reads this
    {
      lockHolder == Some(current)
    }

    /** Acquire, up to the point where the thread sleeps or has the lock. */
    method Acquire(current: Tid) returns (asleep: bool)
      requires Valid() && current !in semaphore.queue
      modifies this, semaphore
      ensures Valid()
      ensures semaphore.State() == PassP(old(semaphore.State()), current)
      ensures asleep <==> old(semaphore.value) == 0
      ensures lockHolder == if asleep then old(lockHolder) else Some(current)
    {
      asleep := semaphore.P(current);
      if !asleep {
        lockHolder := Some(current);
      }
    }

    /** Release; the ASSERT is the precondition. */
    method Release(current: Tid) returns (ready: Option<Tid>)
      requires Valid() && IsHeldBy(current)
      modifies this, semaphore
      ensures Valid() && lockHolder == None
      ensures semaphore.State() == StepV(old(semaphore.State())) && semaphore.value == 1
      ensures ready == if old(semaphore.queue) == [] then None else Some(old(semaphore.queue)[0])
    {
      lockHolder := None;
      ready := semaphore.V();
    }
  }

  class Condition {
    var waitQueue: seq<Semaphore>

    ghost predicate Valid()
      reads this, waitQueue
    {
      Distinct(waitQueue) && forall w :: w in waitQueue ==> SemOk(w.State())
    }

    constructor ()
      ensures Valid() && waitQueue == []
    {
      waitQueue := [];
    }

    /** Wait up to its P on the fresh semaphore: queue the semaphore, give up the lock. */
    method Wait(conditionLock: Lock, current: Tid) returns (waiter: Semaphore)
      requires Valid() && conditionLock.Valid() && conditionLock.IsHeldBy(current)
      requires conditionLock.semaphore !in waitQueue
      modifies this, conditionLock, conditionLock.semaphore
      ensures Valid() && conditionLock.Valid()
      ensures fresh(waiter) && waiter.State() == Sem(0, [], {})
      ensures waitQueue == old(waitQueue) + [waiter]
      ensures conditionLock.lockHolder == None
      ensures conditionLock.semaphore.State() == StepV(old(conditionLock.semaphore.State()))
    {
      waiter := new Semaphore(0);
      waitQueue := waitQueue + [waiter];
      var _ := conditionLock.Release(current);
    }

    /** Signal: the longest waiter gets one unit, and nobody else anything. */
    method Signal(conditionLock: Lock, current: Tid)
      requires Valid() && conditionLock.IsHeldBy(current)
      modifies this, waitQueue
      ensures Valid()
      ensures waitQueue == if old(waitQueue) == [] then [] else old(waitQueue)[1..]
      ensures old(waitQueue) != [] ==> old(waitQueue)[0].State() == StepV(old(waitQueue[0].State()))
      ensures forall w :: w in waitQueue ==> w.State() == old(w.State())
    {
      if waitQueue != [] {
        var waiter := waitQueue[0];
        waitQueue := waitQueue[1..];
        var _ := waiter.V();
      }
    }

    /** Broadcast: every waiter gets one unit, and the queue is empty. */
    method Broadcast(conditionLock: Lock, current: Tid)
      requires Valid() && conditionLock.IsHeldBy(current)
      modifies this, waitQueue
      ensures waitQueue == []
      ensures forall w :: w in old(waitQueue) ==> w.State() == StepV(old(w.State()))
    {
      ghost var all := waitQueue;
      ghost var done := 0;
      while waitQueue != []
        invariant Valid() && 0 <= done <= |all| && waitQueue == all[done..]
        invariant forall i :: 0 <= i < done ==> all[i].State() == StepV(old(all[i].State()))
        invariant forall i :: done <= i < |all| ==> all[i].State() == old(all[i].State())
        decreases |waitQueue|
      {
        assert waitQueue[0] == all[done];
        assert forall i :: 0 <= i < done ==> all[i] !in waitQueue;
        Signal(conditionLock, current);
        done := done + 1;
      }
      assert all[done..] == [] && done == |all|;
    }
  }

  class SynchList<T> {
    var list: seq<T>
    const lock: Lock
    const listEmpty: Condition

    ghost predicate Valid()
      reads this, lock, lock.semaphore, listEmpty, listEmpty.waitQueue
    {
      lock.Valid() && listEmpty.Valid() && lock.semaphore !in listEmpty.waitQueue
    }

    constructor ()
      ensures Valid() && list == [] && listEmpty.waitQueue == []
    {
      list := [];
      lock := new Lock();
      listEmpty := new Condition();
    }

    /** Append once the thread is in the monitor: the item is last, and one waiter has a unit. */
    method Append(item: T, current: Tid)
      requires Valid() && lock.IsHeldBy(current)
      modifies this, lock, lock.semaphore, listEmpty, listEmpty.waitQueue
      ensures Valid()
      ensures lock.lockHolder == None && lock.semaphore.State() == StepV(old(lock.semaphore.State()))
      ensures list == old(list) + [item]
      ensures listEmpty.waitQueue == if old(listEmpty.waitQueue) == [] then [] else old(listEmpty.waitQueue)[1..]
      ensures old(listEmpty.waitQueue) != [] ==>
                old(listEmpty.waitQueue)[0].State() == StepV(old(listEmpty.waitQueue[0].State()))
      ensures forall w :: w in listEmpty.waitQueue ==> w.State() == old(w.State())
    {
      list := list + [item];
      listEmpty.Signal(lock, current);
      var _ := lock.Release(current);
    }

    /** One turn of the loop in RemoveFront: take the front, or wait on a fresh semaphore. */
    method RemoveFront(current: Tid) returns (item: Option<T>)
      requires Valid() && lock.IsHeldBy(current)
      modifies this, lock, lock.semaphore, listEmpty
      ensures Valid()
      ensures lock.lockHolder == None && lock.semaphore.State() == StepV(old(lock.semaphore.State()))
      ensures old(list) == [] ==>
                && item == None && list == [] && |listEmpty.waitQueue| == |old(listEmpty.waitQueue)| + 1
                && old(listEmpty.waitQueue) < listEmpty.waitQueue
                && var w := listEmpty.waitQueue[|old(listEmpty.waitQueue)|]; fresh(w) && w.State() == Sem(0, [], {})
      ensures old(list) != [] ==>
                item.Some? && old(list) == [item.value] + list && listEmpty.waitQueue == old(listEmpty.waitQueue)
      ensures forall w :: w in old(listEmpty.waitQueue) ==> w.State() == old(w.State())
    {
      if list == [] {
        var _ := listEmpty.Wait(lock, current);
        item := None;
      } else {
        item := Some(list[0]);
        list := list[1..];
        var _ := lock.Release(current);
      }
    }
  }
}
