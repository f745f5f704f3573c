/** Re-entrant hand-off locks and condition variables: the transitions of `kernel/lock_cond.c` on
    values, and what holds in every run of any number of threads on one lock and one condition. */
module LockCond {
  import opened Sequences

  const NO_THREAD := -1
  const RESERVED := -2

  /** The fields of `lock_t` that change. */
  datatype Lock = Lock(lockedId: int, nested: int, waiting: int)

  datatype Outcome = Granted | Blocked

  /** First half of `lock_acquire` by thread `t`: up to the point where it returns or blocks. */
  function AcquireEnter(l: Lock, t: int): (Lock, Outcome) {
    if l.lockedId == NO_THREAD then (l.(lockedId := t, nested := 1), Granted)
    else if l.lockedId == t then (l.(nested := l.nested + 1), Granted)
    else (l.(waiting := l.waiting + 1), Blocked)
  }

  /** Second half of `lock_acquire`, after the sleep. */
  function AcquireResume(l: Lock, t: int): Lock {
    Lock(t, 1, l.waiting - 1)
  }

  /** `lock_release`: the new fields, and whether the next sleeper is woken. */
  function Release(l: Lock): (Lock, bool) {
    if l.nested > 1 then (l.(nested := l.nested - 1), false)
    else if l.waiting > 0 then (Lock(RESERVED, 0, l.waiting), true)
    else (Lock(NO_THREAD, 0, l.waiting), false)
  }

  // ----- the machine -----

  /** One lock and one condition variable with everybody around them.
      `queue` and `condQueue` are the sleep queues of the two objects; `handed` are threads woken for
      the lock that have not run yet, `signalled` threads woken on the condition that have not yet
      tried to get the lock back. `arrivals` and `grants` record, in order, who asked for the lock
      (other than its holder) and who got it; `depth` is acquisitions minus releases of each
      thread; `entry` the depth at which a thread still inside `condition_wait` came in. */
  datatype State = State(
    lock: Lock,
    queue: seq<int>,
    handed: seq<int>,
    condWaiting: int,
    condQueue: seq<int>,
    signalled: set<int>,
    arrivals: seq<int>,
    grants: seq<int>,
    depth: map<int, int>,
    entry: map<int, int>)

  datatype Step =
    | Acquire(thread: int)
    | Resume(thread: int)
    | Unlock(thread: int)
    | Wait(thread: int)
    | Signal
    | Broadcast

  function Depth(s: State, t: int): int { if t in s.depth then s.depth[t] else 0 }

  /** Nobody has woken the thread up, or it has not run since: it cannot take a step of its own. */
  predicate Parked(s: State, t: int) { t in s.queue || t in s.condQueue || t in s.handed }

  predicate Enabled(s: State, step: Step) {
    match step
    case Acquire(t) => t >= 0 && !Parked(s, t)
    case Resume(t) => t in s.handed
    case Unlock(t) => t >= 0 && !Parked(s, t) && t !in s.signalled && s.lock.lockedId == t
    case Wait(t) => t >= 0 && !Parked(s, t) && t !in s.signalled && s.lock.lockedId == t
    case Signal => true
    case Broadcast => true
  }

  /** Leaves `condition_wait` if it was in it. */
  function Returned(entry: map<int, int>, t: int): map<int, int> { entry - {t} }

  function AfterAcquire(s: State, t: int): State {
    var (l, outcome) := AcquireEnter(s.lock, t);
    var asks := s.(lock := l, signalled := s.signalled - {t},
                   arrivals := if s.lock.lockedId == t then s.arrivals else s.arrivals + [t]);
    if outcome == Blocked then asks.(queue := s.queue + [t])
    else asks.(grants := if s.lock.lockedId == t then s.grants else s.grants + [t],
               depth := s.depth[t := Depth(s, t) + 1], entry := Returned(s.entry, t))
  }

  function AfterResume(s: State, t: int): State {
    s.(lock := AcquireResume(s.lock, t), handed := [], grants := s.grants + [t],
       depth := s.depth[t := Depth(s, t) + 1], entry := Returned(s.entry, t))
  }

  function AfterUnlock(s: State, t: int): State {
    var (l, wake) := Release(s.lock);
    var released := s.(lock := l, depth := s.depth[t := Depth(s, t) - 1]);
    if wake && s.queue != [] then released.(queue := s.queue[1..], handed := s.handed + [s.queue[0]]) else released
  }

  /** First part of `condition_wait`: the thread goes onto the queue of the condition. */
  function Queued(s: State, t: int): State {
    s.(condWaiting := s.condWaiting + 1, condQueue := s.condQueue + [t], entry := s.entry[t := Depth(s, t)])
  }

  /** The waiter is queued on the condition before the lock is given up. */
  function AfterWait(s: State, t: int): State { AfterUnlock(Queued(s, t), t) }

  function AfterSignal(s: State): State {
    if s.condWaiting > 0 && s.condQueue != [] then
      s.(condWaiting := s.condWaiting - 1, condQueue := s.condQueue[1..], signalled := s.signalled + {s.condQueue[0]})
    else if s.condWaiting > 0 then s.(condWaiting := s.condWaiting - 1)
    else s
  }

  function AfterBroadcast(s: State): State {
    if s.condWaiting > 0 then
      s.(condWaiting := 0, condQueue := [], signalled := s.signalled + Members(s.condQueue))
    else s
  }

  function After(s: State, step: Step): State {
    match step
    case Acquire(t) => AfterAcquire(s, t)
    case Resume(t) => AfterResume(s, t)
    case Unlock(t) => AfterUnlock(s, t)
    case Wait(t) => AfterWait(s, t)
    case Signal => AfterSignal(s)
    case Broadcast => AfterBroadcast(s)
  }

  const INITIAL := State(Lock(NO_THREAD, 0, 0), [], [], 0, [], {}, [], [], map[], map[])

  // ----- the invariant -----

  /** Everyone is in at most one place. */
  ghost predicate Places(s: State) {
    && Distinct(s.queue) && Distinct(s.condQueue)
    && (forall t | t in s.queue || t in s.condQueue || t in s.handed || t in s.signalled :: t >= 0)
    && (forall t | t in s.queue :: t !in s.condQueue && t !in s.handed && t !in s.signalled)
    && (forall t | t in s.condQueue :: t !in s.handed && t !in s.signalled)
    && (forall t | t in s.handed :: t !in s.signalled)
  }

  /** The lock's fields against its sleepers. */
  ghost predicate LockFields(s: State) {
    if s.lock.lockedId == NO_THREAD then
      s.lock.nested == 0 && s.lock.waiting == 0 && s.queue == [] && s.handed == []
    else if s.lock.lockedId == RESERVED then
      s.lock.nested == 0 && s.lock.waiting == |s.queue| + 1 && |s.handed| == 1
    else
      && s.lock.lockedId >= 0 && s.lock.nested >= 1 && s.lock.waiting == |s.queue| && s.handed == []
      && s.lock.lockedId !in s.queue
  }

  /** Who asked is who got it, then who is being handed it, then who still queues, in that order. */
  predicate Fifo(s: State) { s.arrivals == s.grants + s.handed + s.queue }

  ghost predicate Depths(s: State) {
    forall t :: Depth(s, t) == if t >= 0 && s.lock.lockedId == t then s.lock.nested else 0
  }

  /** A thread inside `condition_wait` is queued somewhere or about to ask for the lock, one level
      below the depth at which it came in. */
  ghost predicate Waiters(s: State) {
    && (forall t | t in s.entry :: s.entry[t] == Depth(s, t) + 1 && (Parked(s, t) || t in s.signalled))
    && (forall t | t in s.condQueue || t in s.signalled :: t in s.entry)
  }

  ghost predicate Inv(s: State) {
    Places(s) && LockFields(s) && Fifo(s) && Depths(s) && Waiters(s) && s.condWaiting == |s.condQueue|
  }

  lemma InitialInv()
    ensures Inv(INITIAL)
  {
  }

  lemma AcquireDepths(s: State, t: int)
    requires Inv(s) && Enabled(s, Acquire(t))
    ensures Depths(AfterAcquire(s, t))
  {
    var after := AfterAcquire(s, t);
    forall u ensures Depth(after, u) == if u >= 0 && after.lock.lockedId == u then after.lock.nested else 0 {
      assert Depth(s, u) == if u >= 0 && s.lock.lockedId == u then s.lock.nested else 0;
    }
  }

  lemma AcquireWaiters(s: State, t: int)
    requires Inv(s) && Enabled(s, Acquire(t))
    ensures Waiters(AfterAcquire(s, t))
  {
    var after := AfterAcquire(s, t);
    forall u | u in after.entry ensures after.entry[u] == Depth(after, u) + 1 && (Parked(after, u) || u in after.signalled) {
      assert u in s.entry;
      if u == t { assert t in after.queue; }
    }
  }

  lemma AcquireKeeps(s: State, t: int)
    requires Inv(s) && Enabled(s, Acquire(t))
    ensures Inv(AfterAcquire(s, t))
  {
    AcquireDepths(s, t);
    AcquireWaiters(s, t);
    assert (s.grants + s.handed + s.queue) + [t] == s.grants + s.handed + (s.queue + [t]);
  }

  lemma ResumeDepths(s: State, t: int)
    requires Inv(s) && Enabled(s, Resume(t))
    ensures Depths(AfterResume(s, t))
  {
    var after := AfterResume(s, t);
    forall u ensures Depth(after, u) == if u >= 0 && after.lock.lockedId == u then after.lock.nested else 0 {
      assert Depth(s, u) == if u >= 0 && s.lock.lockedId == u then s.lock.nested else 0;
    }
  }

  lemma ResumeKeeps(s: State, t: int)
    requires Inv(s) && Enabled(s, Resume(t))
    ensures Inv(AfterResume(s, t))
  {
    var after := AfterResume(s, t);
    ResumeDepths(s, t);
    assert s.handed == [t];
    assert s.grants + [t] + s.queue == (s.grants + [t]) + [] + s.queue;
    forall u | u in after.entry ensures after.entry[u] == Depth(after, u) + 1 && (Parked(after, u) || u in after.signalled) {
      assert u in s.entry;
    }
  }

  lemma UnlockDepths(s: State, t: int)
    requires Inv(s) && Enabled(s, Unlock(t))
    ensures Depths(AfterUnlock(s, t))
  {
    var after := AfterUnlock(s, t);
    forall u ensures Depth(after, u) == if u >= 0 && after.lock.lockedId == u then after.lock.nested else 0 {
      assert Depth(s, u) == if u >= 0 && s.lock.lockedId == u then s.lock.nested else 0;
    }
  }

  /** Handing over: the head of the queue, and only it, moves to the reserved place. */
  lemma UnlockPlaces(s: State, t: int)
    requires Places(s) && LockFields(s) && s.lock.lockedId == t >= 0
    ensures Places(AfterUnlock(s, t))
  {
    if s.lock.nested <= 1 && s.queue != [] {
      var after := AfterUnlock(s, t);
      RestOfDistinct(s.queue);
      assert after.queue == s.queue[1..] && after.handed == [s.queue[0]] && s.queue[0] in s.queue;
    }
  }

  lemma UnlockFifo(s: State, t: int)
    requires LockFields(s) && Fifo(s) && s.lock.lockedId == t >= 0
    ensures Fifo(AfterUnlock(s, t)) && LockFields(AfterUnlock(s, t))
  {
    if s.lock.nested <= 1 && s.queue != [] {
      assert s.grants + [] + s.queue == s.grants + [s.queue[0]] + s.queue[1..];
    }
  }

  lemma UnlockParked(s: State, t: int, u: int)
    requires LockFields(s) && s.lock.lockedId == t >= 0
    ensures Parked(AfterUnlock(s, t), u) <==> Parked(s, u)
  {
    if s.queue != [] { assert s.queue == [s.queue[0]] + s.queue[1..]; }
  }

  lemma UnlockKeeps(s: State, t: int)
    requires Inv(s) && Enabled(s, Unlock(t))
    ensures Inv(AfterUnlock(s, t))
  {
    var after := AfterUnlock(s, t);
    UnlockDepths(s, t);
    UnlockPlaces(s, t);
    UnlockFifo(s, t);
    forall u | u in after.entry ensures after.entry[u] == Depth(after, u) + 1 && (Parked(after, u) || u in after.signalled) {
      assert u in s.entry;
      UnlockParked(s, t, u);
    }
  }

  lemma WaitDepths(s: State, t: int)
    requires Inv(s) && Enabled(s, Wait(t))
    ensures Depths(AfterWait(s, t))
  {
    var after := AfterWait(s, t);
    forall u ensures Depth(after, u) == if u >= 0 && after.lock.lockedId == u then after.lock.nested else 0 {
      assert Depth(s, u) == if u >= 0 && s.lock.lockedId == u then s.lock.nested else 0;
    }
  }

  lemma WaitWaiters(s: State, t: int)
    requires Inv(s) && Enabled(s, Wait(t))
    ensures Waiters(AfterWait(s, t))
  {
    var after := AfterWait(s, t);
    assert t in after.condQueue;
    forall u | u in after.entry ensures after.entry[u] == Depth(after, u) + 1 && (Parked(after, u) || u in after.signalled) {
      UnlockParked(Queued(s, t), t, u);
      if u != t { assert u in s.entry; }
    }
  }

  lemma WaitKeeps(s: State, t: int)
    requires Inv(s) && Enabled(s, Wait(t))
    ensures Inv(AfterWait(s, t))
  {
    var queued := Queued(s, t);
    WaitDepths(s, t);
    WaitWaiters(s, t);
    assert Places(queued) && LockFields(queued) && Fifo(queued);
    UnlockPlaces(queued, t);
    UnlockFifo(queued, t);
  }

  lemma SignalKeeps(s: State)
    requires Inv(s)
    ensures Inv(AfterSignal(s))
  {
    var after := AfterSignal(s);
    forall u ensures Depth(after, u) == Depth(s, u) {}
    forall u | u in after.entry ensures Parked(after, u) || u in after.signalled {
      assert u in s.entry;
    }
  }

  lemma BroadcastKeeps(s: State)
    requires Inv(s)
    ensures Inv(AfterBroadcast(s))
  {
    var after := AfterBroadcast(s);
    forall u ensures Depth(after, u) == Depth(s, u) {}
    forall u | u in after.entry ensures Parked(after, u) || u in after.signalled {
      assert u in s.entry;
    }
  }

  lemma StepKeeps(s: State, step: Step)
    requires Inv(s) && Enabled(s, step)
    ensures Inv(After(s, step))
  {
    match step
    case Acquire(t) => AcquireKeeps(s, t);
    case Resume(t) => ResumeKeeps(s, t);
    case Unlock(t) => UnlockKeeps(s, t);
    case Wait(t) => WaitKeeps(s, t);
    case Signal => SignalKeeps(s);
    case Broadcast => BroadcastKeeps(s);
  }

  // ----- runs -----

  ghost predicate IsRun(run: seq<State>, steps: seq<Step>) {
    && |run| == |steps| + 1
    && run[0] == INITIAL
    && forall i | 0 <= i < |steps| :: Follows(run[i], steps[i], run[i + 1])
  }

  predicate Follows(s: State, step: Step, next: State) { Enabled(s, step) && next == After(s, step) }

  lemma {:induction false} ReachableInv(run: seq<State>, steps: seq<Step>, n: nat)
    requires IsRun(run, steps) && n < |run|
    ensures Inv(run[n])
  {
    hide Inv, After, Enabled;
    if n == 0 {
      InitialInv();
    } else {
      ReachableInv(run, steps, n - 1);
      assert Follows(run[n - 1], steps[n - 1], run[n]);
      StepKeeps(run[n - 1], steps[n - 1]);
    }
  }

  /** At most one thread holds the lock; `waiting_thread_count` is the number of sleepers, plus one
      exactly while the lock is reserved for a woken thread; a free lock has no sleepers; and the
      condition's counter is the length of its queue. */
  lemma LockSafety(run: seq<State>, steps: seq<Step>, n: nat)
    requires IsRun(run, steps) && n < |run|
    ensures var s := run[n];
            && (forall t, u | Depth(s, t) > 0 && Depth(s, u) > 0 :: t == u)
            && s.lock.waiting == |s.queue| + (if s.lock.lockedId == RESERVED then 1 else 0)
            && (s.lock.lockedId == NO_THREAD ==> s.queue == [] && s.handed == [])
            && s.condWaiting == |s.condQueue|
  {
    ReachableInv(run, steps, n);
  }

  lemma HistoryGrows(s: State, step: Step)
    requires Enabled(s, step)
    ensures s.arrivals <= After(s, step).arrivals && s.grants <= After(s, step).grants
  {
  }

  lemma {:induction false} HistoryKept(run: seq<State>, steps: seq<Step>, m: nat, n: nat)
    requires IsRun(run, steps) && m <= n < |run|
    ensures run[m].arrivals <= run[n].arrivals && run[m].grants <= run[n].grants
  {
    hide After, Enabled;
    if m < n {
      HistoryKept(run, steps, m, n - 1);
      assert Follows(run[n - 1], steps[n - 1], run[n]);
      HistoryGrows(run[n - 1], steps[n - 1]);
    }
  }

  /** No barging: whoever had asked for the lock by moment `m` in position `i` is the one who gets the
      `i`-th grant, however many others ask later. */
  lemma GrantsFollowArrivals(run: seq<State>, steps: seq<Step>, m: nat, n: nat, i: nat)
    requires IsRun(run, steps) && m <= n < |run|
    requires i < |run[m].arrivals| && i < |run[n].grants|
    ensures run[n].grants[i] == run[m].arrivals[i]
  {
    ReachableInv(run, steps, n);
    HistoryKept(run, steps, m, n);
    hide Inv;
    assert Fifo(run[n]) by { FifoHolds(run[n]); }
  }

  lemma FifoHolds(s: State)
    requires Inv(s)
    ensures Fifo(s)
  {
  }

  // ----- counting acquisitions -----

  /** Whether `step`, taken in `s`, makes a call of `lock_acquire` by `t` return. */
  predicate Acquires(s: State, step: Step, t: int) {
    || step == Resume(t)
    || (step == Acquire(t) && (s.lock.lockedId == NO_THREAD || s.lock.lockedId == t))
  }

  predicate Releases(step: Step, t: int) { step == Unlock(t) || step == Wait(t) }

  /** Acquisitions minus releases of `t` in the first `n` steps. */
  function Net(run: seq<State>, steps: seq<Step>, n: nat, t: int): int
    requires n <= |steps| < |run|
  {
    if n == 0 then 0
    else Net(run, steps, n - 1, t)
         + (if Acquires(run[n - 1], steps[n - 1], t) then 1 else 0)
         - (if Releases(steps[n - 1], t) then 1 else 0)
  }

  lemma DepthStep(s: State, step: Step, t: int)
    requires Inv(s) && Enabled(s, step)
    ensures Depth(After(s, step), t)
            == Depth(s, t) + (if Acquires(s, step, t) then 1 else 0) - (if Releases(step, t) then 1 else 0)
  {
  }

  /** A thread that acquired the lock `k` times more often than it released it holds it exactly when
      `k` is positive: only the release that balances the last acquisition gives it up. */
  lemma {:induction false} HeldIffUnbalanced(run: seq<State>, steps: seq<Step>, n: nat, t: int)
    requires IsRun(run, steps) && n < |run| && t >= 0
    ensures Depth(run[n], t) == Net(run, steps, n, t) >= 0
    ensures run[n].lock.lockedId == t <==> Net(run, steps, n, t) > 0
    ensures run[n].lock.lockedId == t ==> run[n].lock.nested == Net(run, steps, n, t)
  {
    ReachableInv(run, steps, n);
    DepthIsNet(run, steps, n, t);
    DepthIsNested(run[n], t);
  }

  lemma DepthIsNested(s: State, t: int)
    requires Inv(s) && t >= 0
    ensures Depth(s, t) == if s.lock.lockedId == t then s.lock.nested else 0
    ensures s.lock.lockedId == t ==> s.lock.nested >= 1
  {
  }

  lemma {:induction false} DepthIsNet(run: seq<State>, steps: seq<Step>, n: nat, t: int)
    requires IsRun(run, steps) && n < |run|
    ensures Depth(run[n], t) == Net(run, steps, n, t)
  {
    hide Inv, After, Enabled, Acquires, Releases, Depth;
    if n == 0 {
      NothingHeldAtFirst(t);
    } else {
      DepthIsNet(run, steps, n - 1, t);
      ReachableInv(run, steps, n - 1);
      assert Follows(run[n - 1], steps[n - 1], run[n]);
      DepthStep(run[n - 1], steps[n - 1], t);
    }
  }

  lemma NothingHeldAtFirst(t: int)
    ensures Depth(INITIAL, t) == 0
  {
  }

  // ----- condition variables -----

  /** A call of `condition_wait` entered at depth `d` comes back holding the lock at depth `d`. */
  lemma WaitReturnsAtDepth(s: State, step: Step, t: int)
    requires Inv(s) && Enabled(s, step) && t in s.entry && t !in After(s, step).entry
    ensures Depth(After(s, step), t) == s.entry[t]
    ensures After(s, step).lock.lockedId == t && After(s, step).lock.nested == s.entry[t]
    ensures step == Acquire(t) || step == Resume(t)
  {
    StepKeeps(s, step);
    var after := After(s, step);
    DepthStep(s, step, t);
    assert step.Acquire? || step.Resume?;
    DepthIsNested(after, t);
  }

  /** From entering the wait until a signal reaches it, the thread stays on the queue of the condition:
      whoever is ahead of it there only gets fewer. */
  lemma WaiterStaysQueued(s: State, step: Step, i: nat)
    requires Inv(s) && Enabled(s, step) && i < |s.condQueue|
    ensures var t, after := s.condQueue[i], After(s, step);
            if step == Broadcast || (step == Signal && i == 0) then t in after.signalled && t !in after.condQueue
            else if step == Signal then i - 1 < |after.condQueue| && after.condQueue[i - 1] == t
            else i < |after.condQueue| && after.condQueue[i] == t
  {
  }

  /** Signals among the steps from `m` to `n`. */
  function Signals(steps: seq<Step>, m: nat, n: nat): nat
    requires m <= n <= |steps|
  {
    if m == n then 0 else Signals(steps, m, n - 1) + if steps[n - 1] == Signal then 1 else 0
  }

  predicate NoBroadcast(steps: seq<Step>, m: nat, n: nat)
    requires m <= n <= |steps|
  {
    forall j | m <= j < n :: steps[j] != Broadcast
  }

  /** Step `j` takes `t` off the queue of the condition and wakes it. */
  predicate ReachedAt(s: State, step: Step, next: State, t: int) {
    (step == Signal || step == Broadcast) && t in s.condQueue && t !in next.condQueue && t in next.signalled
  }

  ghost predicate Reached(run: seq<State>, steps: seq<Step>, m: nat, n: nat, t: int)
    requires m <= n <= |steps| < |run|
  {
    exists j, k :: m <= j < n && k == j + 1 && ReachedAt(run[j], steps[j], run[k], t)
  }

  /** A waiter over any stretch of a run: with `k` signals made since, at most as many as stood before it, and no
      broadcast, it is on the queue exactly `k` places further ahead; otherwise a signal or broadcast has reached it. */
  lemma {:induction false} WaiterOverRuns(run: seq<State>, steps: seq<Step>, m: nat, n: nat, i: nat)
    requires IsRun(run, steps) && m <= n < |run| && i < |run[m].condQueue|
    ensures var t, k := run[m].condQueue[i], Signals(steps, m, n);
            if k <= i && NoBroadcast(steps, m, n) then i - k < |run[n].condQueue| && run[n].condQueue[i - k] == t
            else Reached(run, steps, m, n, t)
  {
    hide Inv, After, Enabled, Follows;
    if m < n {
      var t, k := run[m].condQueue[i], Signals(steps, m, n - 1);
      WaiterOverRuns(run, steps, m, n - 1, i);
      if k <= i && NoBroadcast(steps, m, n - 1) {
        ReachableInv(run, steps, n - 1);
        assert Follows(run[n - 1], steps[n - 1], run[n]);
        WaiterStep(run[n - 1], steps[n - 1], run[n], i - k);
        if steps[n - 1] == Broadcast || (k == i && steps[n - 1] == Signal) {
          assert ReachedAt(run[n - 1], steps[n - 1], run[n], t);
        }
      } else {
        var j, j' :| m <= j < n - 1 && j' == j + 1 && ReachedAt(run[j], steps[j], run[j'], t);
      }
    }
  }

  lemma WaiterStep(s: State, step: Step, next: State, i: nat)
    requires Inv(s) && Follows(s, step, next) && i < |s.condQueue|
    ensures var t := s.condQueue[i];
            if step == Broadcast || (step == Signal && i == 0) then ReachedAt(s, step, next, t)
            else if step == Signal then i - 1 < |next.condQueue| && next.condQueue[i - 1] == t
            else i < |next.condQueue| && next.condQueue[i] == t
  {
    WaiterStaysQueued(s, step, i);
  }

  /** Signal wakes exactly the longest waiter, broadcast exactly those queued, and neither touches the
      lock or its queue. */
  lemma SignalEffects(s: State)
    requires Inv(s)
    ensures AfterSignal(s).signalled == s.signalled + (if s.condQueue == [] then {} else {s.condQueue[0]})
    ensures AfterSignal(s).condQueue == if s.condQueue == [] then [] else s.condQueue[1..]
    ensures AfterBroadcast(s).signalled == s.signalled + Members(s.condQueue) && AfterBroadcast(s).condQueue == []
    ensures AfterSignal(s).lock == s.lock == AfterBroadcast(s).lock && AfterSignal(s).queue == s.queue == AfterBroadcast(s).queue
  {
    if s.condQueue == [] {
      assert s.signalled + Members([]) == s.signalled;
    }
  }
}
