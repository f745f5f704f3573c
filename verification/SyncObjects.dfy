/** Locks and condition variables as kernel objects: fields updated in place, with their waiters on the
    hashed sleep queue. Each method is proved to be one step of the machine of module `LockCond`. */
module SyncObjects {
  import L = LockCond
  import opened ThreadTable
  import opened ThreadSteps
  import opened SleepQueue
  import opened Scheduling
  import opened KernelRuns
  import opened Kernel

  /** The machine's queues are the kernel's queues of the two addresses, and its counters the fields of
      the two objects. */
  ghost predicate Agrees(s: L.State, fields: L.Lock, condWaiting: int, k: Table, lockAddress: int, condAddress: int) {
    && Inv(k) && lockAddress > 0 && condAddress > 0 && lockAddress != condAddress
    && s.lock == fields && s.condWaiting == condWaiting
    && s.queue == Queue(k, lockAddress) && s.condQueue == Queue(k, condAddress)
  }

  lemma AcquireAgrees(s: L.State, k: Table, la: int, ca: int)
    requires L.Inv(s) && Agrees(s, s.lock, s.condWaiting, k, la, ca) && AwakeAndRunning(k)
    ensures var (fields, outcome) := L.AcquireEnter(s.lock, k.current);
            Agrees(L.AfterAcquire(s, k.current), fields, s.condWaiting,
                   if outcome == L.Blocked then Enqueue(k, la) else k, la, ca)
  {
    hide InvBut, Queue, Enqueue, L.Inv;
    EnqueueKeeps(k, la);
    EnqueueQueue(k, la, la);
    EnqueueQueue(k, la, ca);
  }

  lemma ReleaseAgrees(s: L.State, t: int, k: Table, la: int, ca: int)
    requires Agrees(s, s.lock, s.condWaiting, k, la, ca)
    ensures var (fields, wake) := L.Release(s.lock);
            Agrees(L.AfterUnlock(s, t), fields, s.condWaiting, if wake then Wake(k, la) else k, la, ca)
  {
    hide InvBut, Queue, Wake;
    WakeKeeps(k, la);
    WakeQueue(k, la, la);
    WakeQueue(k, la, ca);
  }

  lemma QueuedAgrees(s: L.State, k: Table, la: int, ca: int)
    requires Agrees(s, s.lock, s.condWaiting, k, la, ca) && AwakeAndRunning(k)
    ensures Agrees(L.Queued(s, k.current), s.lock, s.condWaiting + 1, Enqueue(k, ca), la, ca)
  {
    hide InvBut, Queue, Enqueue;
    EnqueueKeeps(k, ca);
    EnqueueQueue(k, ca, la);
    EnqueueQueue(k, ca, ca);
  }

  lemma SignalAgrees(s: L.State, k: Table, la: int, ca: int)
    requires Agrees(s, s.lock, s.condWaiting, k, la, ca) && s.condWaiting > 0
    ensures Agrees(L.AfterSignal(s), s.lock, s.condWaiting - 1, Wake(k, ca), la, ca)
  {
    hide InvBut, Queue, Wake;
    WakeKeeps(k, ca);
    WakeQueue(k, ca, la);
    WakeQueue(k, ca, ca);
  }

  lemma BroadcastAgrees(s: L.State, k: Table, la: int, ca: int)
    requires Agrees(s, s.lock, s.condWaiting, k, la, ca) && s.condWaiting > 0
    ensures Agrees(L.AfterBroadcast(s), s.lock, 0, WakeAll(k, ca), la, ca)
  {
    hide InvBut, Queue, WakeAll;
    WakeAllEffect(k, ca, la);
  }

  /** A lock and a condition variable used with it. */
  class Monitor {
    const kernel: ThreadSystem
    const lockAddress: int
    const condAddress: int
    var lockedId: int
    var nested: int
    var lockWaiting: int
    var condWaiting: int
    /** What the machine says has happened so far. */
    ghost var state: L.State

    ghost predicate Valid()
      reads this, kernel, kernel.table, kernel.hashtable
    {
      && kernel.Valid() && L.Inv(state)
      && Agrees(state, L.Lock(lockedId, nested, lockWaiting), condWaiting, kernel.Snap(), lockAddress, condAddress)
    }

    /** A lock and a condition of the tables, unused so far. */
    constructor (k: ThreadSystem, lockAt: int, condAt: int)
      requires k.Valid() && lockAt > 0 && condAt > 0 && lockAt != condAt
      requires Queue(k.Snap(), lockAt) == [] == Queue(k.Snap(), condAt)
      ensures Valid() && state == L.INITIAL && kernel == k
    {
      hide InvBut, Queue;
      kernel, lockAddress, condAddress := k, lockAt, condAt;
      lockedId, nested, lockWaiting, condWaiting := L.NO_THREAD, 0, 0, 0;
      state := L.INITIAL;
      L.InitialInv();
    }

    /** `lock_acquire` by the running thread, up to the point where it returns or gives up the
        processor. */
    method AcquireEnter() returns (blocked: bool)
      requires Valid() && AwakeAndRunning(kernel.Snap()) && L.Enabled(state, L.Acquire(kernel.current))
      modifies this, kernel`chains, kernel.table, kernel.hashtable
      ensures Valid() && state == L.After(old(state), L.Acquire(kernel.current))
      ensures blocked <==> kernel.current in state.queue
    {
      hide InvBut, Queue, Enqueue, L.Inv, AwakeAndRunning;
      L.AcquireKeeps(state, kernel.current);
      AcquireAgrees(state, kernel.Snap(), lockAddress, condAddress);
      state := L.AfterAcquire(state, kernel.current);
      if lockedId == L.NO_THREAD {
        lockedId := kernel.current;
        nested := 1;
        return false;
      } else if lockedId == kernel.current {
        nested := nested + 1;
        return false;
      }
      lockWaiting := lockWaiting + 1;
      kernel.SleepqAdd(lockAddress);
      return true;
    }

    /** `lock_acquire` by a thread that has been woken and runs again. */
    method AcquireResume()
      requires Valid() && L.Enabled(state, L.Resume(kernel.current))
      modifies this
      ensures Valid() && state == L.After(old(state), L.Resume(kernel.current))
    {
      hide InvBut, Queue, L.Inv;
      L.ResumeKeeps(state, kernel.current);
      state := L.AfterResume(state, kernel.current);
      lockWaiting := lockWaiting - 1;
      lockedId := kernel.current;
      nested := 1;
    }

    /** The body of `lock_release`. */
    method Free()
      requires kernel.Valid()
      requires Agrees(state, L.Lock(lockedId, nested, lockWaiting), condWaiting, kernel.Snap(), lockAddress, condAddress)
      modifies this, kernel`readyHead, kernel`readyTail, kernel`arrivals, kernel`chains, kernel.table, kernel.hashtable
      ensures kernel.Valid()
      ensures Agrees(state, L.Lock(lockedId, nested, lockWaiting), condWaiting, kernel.Snap(), lockAddress, condAddress)
      ensures state == L.AfterUnlock(old(state), kernel.current)
    {
      hide InvBut, Queue, Wake;
      ReleaseAgrees(state, kernel.current, kernel.Snap(), lockAddress, condAddress);
      state := L.AfterUnlock(state, kernel.current);
      if nested > 1 {
        nested := nested - 1;
        return;
      }
      nested := 0;
      if lockWaiting > 0 {
        kernel.SleepqWake(lockAddress);
        lockedId := L.RESERVED;
      } else {
        lockedId := L.NO_THREAD;
      }
    }

    /** `lock_release`, which demands that the running thread holds the lock. */
    method Release()
      requires Valid() && L.Enabled(state, L.Unlock(kernel.current))
      modifies this, kernel`readyHead, kernel`readyTail, kernel`arrivals, kernel`chains, kernel.table, kernel.hashtable
      ensures Valid() && state == L.After(old(state), L.Unlock(kernel.current))
    {
      hide InvBut, Queue, L.Inv, Agrees;
      L.UnlockKeeps(state, kernel.current);
      Free();
    }

    /** `condition_wait` up to the point where the thread gives up the processor; it comes back through
        `AcquireEnter`. */
    method WaitEnter()
      requires Valid() && AwakeAndRunning(kernel.Snap()) && L.Enabled(state, L.Wait(kernel.current))
      modifies this, kernel`readyHead, kernel`readyTail, kernel`arrivals, kernel`chains, kernel.table, kernel.hashtable
      ensures Valid() && state == L.After(old(state), L.Wait(kernel.current))
    {
      hide InvBut, Queue, L.Inv, Enqueue, AwakeAndRunning;
      L.WaitKeeps(state, kernel.current);
      QueuedAgrees(state, kernel.Snap(), lockAddress, condAddress);
      condWaiting := condWaiting + 1;
      kernel.SleepqAdd(condAddress);
      state := L.Queued(state, kernel.current);
      Free();
    }

    /** `condition_signal`. */
    method Signal()
      requires Valid()
      modifies this, kernel`readyHead, kernel`readyTail, kernel`arrivals, kernel`chains, kernel.table, kernel.hashtable
      ensures Valid() && state == L.After(old(state), L.Signal)
    {
      hide InvBut, Queue, L.Inv, Wake;
      L.SignalKeeps(state);
      if condWaiting > 0 {
        SignalAgrees(state, kernel.Snap(), lockAddress, condAddress);
        condWaiting := condWaiting - 1;
        kernel.SleepqWake(condAddress);
      }
      state := L.AfterSignal(state);
    }

    /** `condition_broadcast`. */
    method Broadcast()
      requires Valid()
      modifies this, kernel`readyHead, kernel`readyTail, kernel`arrivals, kernel`chains, kernel.table, kernel.hashtable
      ensures Valid() && state == L.After(old(state), L.Broadcast)
    {
      hide InvBut, Queue, L.Inv, WakeAll;
      L.BroadcastKeeps(state);
      if condWaiting > 0 {
        BroadcastAgrees(state, kernel.Snap(), lockAddress, condAddress);
        condWaiting := 0;
        kernel.SleepqWakeAll(condAddress);
      }
      state := L.AfterBroadcast(state);
    }

    /** `thread_switch` between the steps: whoever runs next, the waiters are where they were. */
    method Switch(now: int)
      requires Valid()
      modifies kernel`readyHead, kernel`readyTail, kernel`sleeperHead, kernel`current, kernel`arrivals, kernel`sleepers, kernel.table
      ensures Valid() && state == old(state)
    {
      hide InvBut, Queue, L.Inv, Schedule;
      SwitchKeepsQueues(kernel.Snap(), now, lockAddress);
      SwitchKeepsQueues(kernel.Snap(), now, condAddress);
      kernel.Reschedule(now);
    }
  }
}
